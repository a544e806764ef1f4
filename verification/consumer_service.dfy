/**
 * `ConsumerService`: the paginated listing, which looks every distinct
 * favourite id of the page up once, and the single-consumer view, which looks
 * up that consumer's favourites.
 */
module ConsumerService {
  import opened Domain
  import opened Repositories
  import opened ProductSchemas
  import opened ConsumerSchemas
  import Paging

  /** The set of favourite ids over the page's consumers, as the set comprehension builds it. */
  function PageProductIds(cs: seq<Consumer>, fs: seq<Favorite>): (ids: set<ProductId>)
    ensures forall k, p | 0 <= k < |cs| && p in FavoritesOf(fs, cs[k].id) :: p in ids
    ensures forall p | p in ids :: exists k | 0 <= k < |cs| :: p in FavoritesOf(fs, cs[k].id)
  {
    if cs == [] then {}
    else
      var rest := PageProductIds(cs[1..], fs);
      assert forall k | 1 <= k < |cs| :: cs[k] == cs[1..][k - 1];
      (set p | p in FavoritesOf(fs, cs[0].id)) + rest
  }

  /** The favourite rows the page's consumers carry: one lookup each without deduplication. */
  function PageFavoriteRows(cs: seq<Consumer>, fs: seq<Favorite>): nat {
    if cs == [] then 0 else |FavoritesOf(fs, cs[0].id)| + PageFavoriteRows(cs[1..], fs)
  }

  /** The products map: the ids among `ids` that the catalogue resolves, with their products. */
  function ProductsMapFor(ids: set<ProductId>, catalog: Catalog): (m: ProductsMap)
    ensures m.Keys == ids * catalog.Keys
    ensures forall p | p in m :: m[p] == catalog[p]
  {
    map p | p in ids && p in catalog :: catalog[p]
  }

  /** `list_with_favorites(page, page_size)`; the route guarantees both are at least 1. */
  function ListWithFavorites(s: Store, catalog: Catalog, page: nat, pageSize: nat): (r: Paging.Page<ConsumerView>)
    requires page >= 1 && pageSize >= 1
    ensures r.total == |s.consumers| && r.page == page && r.pageSize == pageSize
    ensures r.totalPages == Paging.TotalPages(|s.consumers|, pageSize)
    ensures |r.data| == |ConsumersPage(s, Paging.PageStart(page, pageSize), pageSize)|
    ensures forall i | 0 <= i < |r.data| ::
      var c := s.consumers[Paging.PageStart(page, pageSize) + i];
      r.data[i].id == c.id && r.data[i].name == c.name && r.data[i].email == c.email
  {
    var total := CountConsumers(s);
    var consumers := ConsumersPage(s, Paging.PageStart(page, pageSize), pageSize);
    var m := ProductsMapFor(PageProductIds(consumers, s.favorites), catalog);
    Paging.Page(
      seq(|consumers|, i requires 0 <= i < |consumers| => FromDomain(consumers[i], FavoritesOf(s.favorites, consumers[i].id), m)),
      total, page, pageSize, Paging.TotalPages(total, pageSize))
  }

  /** `retrive_consumer`: the map is built from this consumer's favourites only. */
  function RetrieveConsumer(s: Store, catalog: Catalog, c: Consumer): (v: ConsumerView)
    ensures v.id == c.id && v.name == c.name && v.email == c.email
    ensures v.favorites == Enrich(FavoritesOf(s.favorites, c.id), catalog)
    ensures |v.favorites| == |FavoritesOf(s.favorites, c.id)| <==>
      forall p | p in FavoritesOf(s.favorites, c.id) :: p in catalog
  {
    var favs := FavoritesOf(s.favorites, c.id);
    var m := ProductsMapFor((set p | p in favs), catalog);
    EnrichLocal(favs, m, catalog);
    FromDomain(c, favs, m)
  }

  /**
   * The listing shows each consumer of the page exactly as the single-consumer
   * view does: sharing one deduplicated map across the page changes nothing.
   */
  lemma ListAgreesWithRetrieve(s: Store, catalog: Catalog, page: nat, pageSize: nat)
    requires page >= 1 && pageSize >= 1
    ensures var r := ListWithFavorites(s, catalog, page, pageSize);
      var cs := ConsumersPage(s, Paging.PageStart(page, pageSize), pageSize);
      forall i | 0 <= i < |r.data| :: r.data[i] == RetrieveConsumer(s, catalog, cs[i])
  {
    var r := ListWithFavorites(s, catalog, page, pageSize);
    var cs := ConsumersPage(s, Paging.PageStart(page, pageSize), pageSize);
    var ids := PageProductIds(cs, s.favorites);
    var m := ProductsMapFor(ids, catalog);
    forall i | 0 <= i < |r.data| ensures r.data[i] == RetrieveConsumer(s, catalog, cs[i]) {
      var favs := FavoritesOf(s.favorites, cs[i].id);
      var mi := ProductsMapFor((set p | p in favs), catalog);
      assert forall p | p in favs :: p in ids;
      EnrichLocal(favs, m, mi);
    }
  }

  /**
   * Deduplication: the listing makes one catalogue lookup per distinct id,
   * never more than one per favourite row on the page.
   */
  lemma {:induction false} LookupsAtMostRows(cs: seq<Consumer>, fs: seq<Favorite>)
    ensures |PageProductIds(cs, fs)| <= PageFavoriteRows(cs, fs)
  {
    if cs != [] {
      LookupsAtMostRows(cs[1..], fs);
      var xs := FavoritesOf(fs, cs[0].id);
      SetOfSeqSize(xs);
      var a := set p | p in xs;
      var b := PageProductIds(cs[1..], fs);
      assert |a + b| <= |a| + |b| by {
        assert |a + b| == |a| + |b| - |a * b|;
      }
    }
  }

  lemma {:induction false} SetOfSeqSize<T>(xs: seq<T>)
    ensures |set x | x in xs| <= |xs|
  {
    if xs != [] {
      SetOfSeqSize(xs[1..]);
      assert (set x | x in xs) == (set x | x in xs[1..]) + {xs[0]};
    }
  }
}
