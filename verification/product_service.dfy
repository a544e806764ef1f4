/**
 * `ProductService.get_available_products`: the whole catalogue is fetched and
 * one page of it is cut out with a Python slice.
 */
module ProductService {
  import opened Results
  import opened Domain
  import opened ProductSchemas
  import Paging

  /**
   * The details built for the listing. The source passes the rating under the
   * keyword `review`, which `ProductDetails` does not declare, so the rating of
   * a listed product is always left unset.
   */
  function Listed(p: Product): (d: ProductDetails)
    ensures d.id == p.id && d.title == p.title && d.image == p.image
    ensures d.rating.None?
  {
    ProductDetails(p.id, p.title, p.image, None)
  }

  /** `products[(page - 1) * page_size : page * page_size]`, in catalogue order. */
  function GetAvailableProducts(products: seq<Product>, page: nat, pageSize: nat): (r: Paging.Page<ProductDetails>)
    requires page >= 1 && pageSize >= 1
    ensures r.total == |products| && r.page == page && r.pageSize == pageSize
    ensures r.totalPages == Paging.TotalPages(|products|, pageSize)
    ensures |r.data| == Paging.Max(0, Paging.Min(pageSize, |products| - Paging.PageStart(page, pageSize)))
    ensures forall i | 0 <= i < |r.data| ::
      Paging.PageStart(page, pageSize) + i < |products|
      && r.data[i] == Listed(products[Paging.PageStart(page, pageSize) + i])
  {
    var total := |products|;
    var slice := Paging.Slice(products, Paging.PageStart(page, pageSize), pageSize);
    Paging.Page(
      seq(|slice|, i requires 0 <= i < |slice| => Listed(slice[i])),
      total, page, pageSize, Paging.TotalPages(total, pageSize))
  }

  /** A page past the last one is empty, whatever the page count says. */
  lemma PastLastPage(products: seq<Product>, page: nat, pageSize: nat)
    requires pageSize >= 1 && page > Paging.TotalPages(|products|, pageSize)
    ensures GetAvailableProducts(products, page, pageSize).data == []
  {
    Paging.PastLastPageEmpty(products, page, pageSize);
  }

  /** A catalogue whose i-th product has id i + 1, like the one the unit tests use. */
  predicate NumberedFromOne(products: seq<Product>) {
    forall i | 0 <= i < |products| :: products[i].id == i + 1
  }

  /** Twenty products, five a page: four pages, and page 2 opens with product 6. */
  lemma TwentyItemsFivePerPage(products: seq<Product>)
    requires |products| == 20 && NumberedFromOne(products)
    ensures var r := GetAvailableProducts(products, 2, 5);
      r.total == 20 && r.totalPages == 4 && |r.data| == 5 && r.data[0].id == 6
  {
  }

  /** One product, ten a page: page 2 is empty and there is still one page. */
  lemma OneItemSecondPage(products: seq<Product>)
    requires |products| == 1
    ensures var r := GetAvailableProducts(products, 2, 10);
      r.data == [] && r.totalPages == 1
  {
  }

  /** No products at all: empty data and one page. */
  lemma EmptyCatalogue()
    ensures var r := GetAvailableProducts([], 1, 10);
      r.data == [] && r.total == 0 && r.totalPages == 1
  {
  }
}
