/**
 * The consumer request constraints and the `ConsumerResponse.from_domain`
 * enrichment, which turns a consumer's favourite ids into product details
 * through a product map and silently drops the ids the map does not hold.
 */
module ConsumerSchemas {
  import opened Results
  import opened Domain
  import opened ProductSchemas

  /** The product map handed to `from_domain`: favourite id -> upstream product. */
  type ProductsMap = map<ProductId, Product>

  datatype ConsumerView = ConsumerView(id: ConsumerId, name: string, email: string, favorites: seq<ProductDetails>)

  /** `ConsumerBase.name`: between 1 and 255 characters. */
  predicate ValidName(name: string) {
    1 <= |name| <= 255
  }

  /** `ConsumerCreate` validation; the email only has to be present. */
  function ValidateConsumerCreate(name: string): (r: Option<Error>)
    ensures r.None? <==> 1 <= |name| <= 255
  {
    if ValidName(name) then None else Some(ValidationError("name"))
  }

  /** `FavoriteCreate.product_ids`: at least one id. */
  function ValidateFavoriteCreate(ids: seq<ProductId>): (r: Option<Error>)
    ensures r.None? <==> |ids| >= 1
  {
    if |ids| >= 1 then None else Some(ValidationError("product_ids"))
  }

  /**
   * The favourites list of a response: the details of each favourite whose id
   * the map holds, in favourite order; the others are dropped.
   */
  function Enrich(favs: seq<ProductId>, m: ProductsMap): (ds: seq<ProductDetails>)
    ensures |ds| <= |favs|
    ensures |ds| == |favs| <==> forall i | 0 <= i < |favs| :: favs[i] in m
    ensures (forall i | 0 <= i < |favs| :: favs[i] in m) ==>
      forall i | 0 <= i < |favs| :: ds[i] == Details(m[favs[i]])
    ensures forall p | p in favs && p in m :: Details(m[p]) in ds
    ensures forall d | d in ds :: exists p | p in favs && p in m :: d == Details(m[p])
    ensures |favs| == 1 && favs[0] in m ==> ds == [Details(m[favs[0]])]
    ensures |favs| == 1 && favs[0] !in m ==> ds == []
  {
    if favs == [] then []
    else
      var rest := Enrich(favs[1..], m);
      assert forall p | p in favs[1..] :: p in favs;
      if favs[0] in m then [Details(m[favs[0]])] + rest else rest
  }

  /**
   * Enrichment is an order-preserving filter: it distributes over
   * concatenation, so together with the one-element cases above it fixes the
   * result, order included, for every list of favourites.
   */
  lemma {:induction false} EnrichAppend(xs: seq<ProductId>, ys: seq<ProductId>, m: ProductsMap)
    ensures Enrich(xs + ys, m) == Enrich(xs, m) + Enrich(ys, m)
  {
    if xs != [] {
      assert (xs + ys)[0] == xs[0];
      assert (xs + ys)[1..] == xs[1..] + ys;
      EnrichAppend(xs[1..], ys, m);
    } else {
      assert xs + ys == ys;
    }
  }

  /** `ConsumerResponse.from_domain`: id, name and email copied, favourites enriched. */
  function FromDomain(c: Consumer, favs: seq<ProductId>, m: ProductsMap): (v: ConsumerView)
    ensures v.id == c.id && v.name == c.name && v.email == c.email
    ensures v.favorites == Enrich(favs, m)
    ensures |v.favorites| <= |favs|
    ensures |v.favorites| == |favs| <==> forall p | p in favs :: p in m
    ensures (forall p | p in favs :: p in m) ==>
      forall i | 0 <= i < |favs| :: v.favorites[i] == Details(m[favs[i]])
    ensures forall p | p in favs && p in m :: Details(m[p]) in v.favorites
    ensures forall d | d in v.favorites :: exists p | p in favs && p in m :: d == Details(m[p])
  {
    ConsumerView(c.id, c.name, c.email, Enrich(favs, m))
  }

  /** Only the map's entries for the favourites themselves matter. */
  lemma {:induction false} EnrichLocal(favs: seq<ProductId>, m1: ProductsMap, m2: ProductsMap)
    requires forall p | p in favs :: (p in m1 <==> p in m2) && (p in m1 ==> m1[p] == m2[p])
    ensures Enrich(favs, m1) == Enrich(favs, m2)
  {
    if favs != [] {
      assert forall p | p in favs[1..] :: p in favs;
      EnrichLocal(favs[1..], m1, m2);
    }
  }
}
