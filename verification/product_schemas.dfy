/** The product response records. */
module ProductSchemas {
  import opened Results
  import opened Domain

  /** `ProductDetails`: what a response shows of a product (the float price is not modelled). */
  datatype ProductDetails = ProductDetails(id: int, title: string, image: string, rating: Option<Rating>)

  /** `ProductDetails(**product)`: every declared field taken from the product. */
  function Details(p: Product): (d: ProductDetails)
    ensures d.id == p.id && d.title == p.title && d.image == p.image && d.rating == p.rating
  {
    ProductDetails(p.id, p.title, p.image, p.rating)
  }
}
