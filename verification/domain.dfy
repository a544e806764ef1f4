/**
 * The persisted records of the favourites backend and the invariants the
 * relational schema enforces on them: consumers with unique emails, favourites
 * that are unique (consumer, product) pairs owned by an existing consumer, and
 * users keyed by a unique email.
 *
 * Identifiers that the source draws with uuid4 are abstract naturals handed out
 * by a counter (`nextId`), which is enough to make every new id fresh.
 */
module Domain {
  import opened Results

  type ConsumerId = nat
  type UserId = nat
  /** Favourites keep the product id as the (non-null) string the caller sent. */
  type ProductId = string

  datatype Consumer = Consumer(id: ConsumerId, name: string, email: string)

  /** One favourite row; its own uuid and timestamp play no part in any decision. */
  datatype Favorite = Favorite(consumer: ConsumerId, product: ProductId)

  datatype User = User(id: UserId, email: string, hashedPassword: string, isActive: bool)

  /** The upstream rating record; its float `rate` is not modelled. */
  datatype Rating = Rating(count: int)

  /** A product as the upstream catalogue serves it; the float price is not modelled. */
  datatype Product = Product(id: int, title: string, image: string, rating: Option<Rating>)

  /**
   * The upstream catalogue, seen through `get_product_by_id`: the path segment
   * requested and the product it resolves to. A missing key is the upstream 404.
   */
  type Catalog = map<string, Product>

  /**
   * The database: `consumers` in the order a plain SELECT returns them,
   * `favorites` in insertion order, `users` keyed by their email.
   */
  datatype Store = Store(
    consumers: seq<Consumer>,
    favorites: seq<Favorite>,
    users: map<string, User>,
    nextId: nat)

  /**
   * The outcomes the source reports as HTTP errors. `IntegrityViolation` is the
   * database's `IntegrityError`, which no handler catches in `create_favorite`;
   * `ResponseRejected` is a returned row that the route's response model refuses.
   */
  datatype Error =
    | ValidationError(field: string)
    | InvalidProductId
    | ConsumerNotFound
    | ProductNotFound
    | FavoriteNotFound
    | ConsumerEmailTaken
    | EmailAlreadyRegistered
    | IncorrectCredentials
    | IntegrityViolation
    | ResponseRejected

  /** A store transition: the store afterwards and what the caller is told. */
  datatype Reply<+T> = Reply(store: Store, result: Result<T, Error>)

  function StatusCode(e: Error): nat {
    match e
    case ValidationError(_) => 422
    case InvalidProductId => 422
    case ConsumerNotFound => 404
    case ProductNotFound => 404
    case FavoriteNotFound => 404
    case ConsumerEmailTaken => 400
    case EmailAlreadyRegistered => 400
    case IncorrectCredentials => 400
    case IntegrityViolation => 500
    case ResponseRejected => 500
  }

  /**
   * The `detail` of the error response. For a `ValidationError` FastAPI sends
   * a list of error objects; only the offending field is kept here. For
   * `IntegrityViolation` and `ResponseRejected` the source sets none; the
   * framework's generic 500 body is shown.
   */
  function Detail(e: Error): string {
    match e
    case ValidationError(f) => f
    case InvalidProductId => "Product ID must be a numeric value"
    case ConsumerNotFound => "Consumer not found"
    case ProductNotFound => "Product not found"
    case FavoriteNotFound => "Favorite not found"
    case ConsumerEmailTaken => "Consumer with this email already exists"
    case EmailAlreadyRegistered => "Email j\U{00E1} cadastrado"
    case IncorrectCredentials => "Incorrect email or password"
    case IntegrityViolation => "Internal Server Error"
    case ResponseRejected => "Internal Server Error"
  }

  predicate HasConsumer(s: Store, c: ConsumerId) {
    exists i | 0 <= i < |s.consumers| :: s.consumers[i].id == c
  }

  predicate EmailTaken(s: Store, email: string) {
    exists i | 0 <= i < |s.consumers| :: s.consumers[i].email == email
  }

  /** Primary key of Consumers. */
  predicate UniqueIds(cs: seq<Consumer>) {
    forall i, j | 0 <= i < j < |cs| :: cs[i].id != cs[j].id
  }

  /** The unique index on Consumers.email. */
  predicate UniqueEmails(cs: seq<Consumer>) {
    forall i, j | 0 <= i < j < |cs| :: cs[i].email != cs[j].email
  }

  /** No element occurs twice. */
  predicate Distinct<T(==)>(xs: seq<T>) {
    forall i, j | 0 <= i < j < |xs| :: xs[i] != xs[j]
  }

  /** The `_consumer_product_uc` constraint: no pair is stored twice. */
  predicate UniquePairs(fs: seq<Favorite>) {
    Distinct(fs)
  }

  /** The foreign key Favorites.consumer_id -> Consumers.id. */
  predicate OwnedFavorites(s: Store) {
    forall f | f in s.favorites :: HasConsumer(s, f.consumer)
  }

  /** Every id handed out so far lies below the counter, so `nextId` is fresh. */
  predicate FreshCounter(s: Store) {
    && (forall i | 0 <= i < |s.consumers| :: s.consumers[i].id < s.nextId)
    && (forall e | e in s.users :: s.users[e].id < s.nextId)
  }

  /** The users table: keyed by its unique email, with distinct ids. */
  predicate UsersKeyed(users: map<string, User>) {
    && (forall e | e in users :: users[e].email == e)
    && (forall e1, e2 | e1 in users && e2 in users && e1 != e2 :: users[e1].id != users[e2].id)
  }

  predicate Valid(s: Store) {
    && UniqueIds(s.consumers)
    && UniqueEmails(s.consumers)
    && UniquePairs(s.favorites)
    && OwnedFavorites(s)
    && FreshCounter(s)
    && UsersKeyed(s.users)
  }

  /** The product ids of consumer `c`'s favourites, in store order: `consumer.favorites`. */
  function FavoritesOf(fs: seq<Favorite>, c: ConsumerId): (ps: seq<ProductId>)
    ensures |ps| <= |fs|
    ensures forall p :: p in ps <==> Favorite(c, p) in fs
    ensures forall p :: multiset(ps)[p] == multiset(fs)[Favorite(c, p)]
    ensures Distinct(fs) ==> Distinct(ps)
  {
    if fs == [] then []
    else
      var rest := FavoritesOf(fs[1..], c);
      var f := fs[0];
      assert multiset(fs) == multiset{f} + multiset(fs[1..]) by {
        assert fs == [f] + fs[1..];
      }
      ConsDistinct(f, fs[1..]);
      assert fs == [f] + fs[1..];
      if f.consumer == c then
        ConsDistinct(f.product, rest);
        var ps := [f.product] + rest;
        assert multiset(ps) == multiset{f.product} + multiset(rest);
        ps
      else
        rest
  }

  lemma ConsDistinct<T>(x: T, xs: seq<T>)
    ensures Distinct([x] + xs) <==> x !in xs && Distinct(xs)
  {
    var ys := [x] + xs;
    if x !in xs && Distinct(xs) {
      forall i, j | 0 <= i < j < |ys| ensures ys[i] != ys[j] {
        if i == 0 { assert ys[j] == xs[j - 1]; }
        else { assert ys[i] == xs[i - 1] && ys[j] == xs[j - 1]; }
      }
    }
    if Distinct(ys) {
      forall i, j | 0 <= i < j < |xs| ensures xs[i] != xs[j] {
        assert ys[i + 1] == xs[i] && ys[j + 1] == xs[j];
      }
      forall k | 0 <= k < |xs| ensures xs[k] != x {
        assert ys[0] == x && ys[k + 1] == xs[k] && 0 < k + 1 < |ys|;
      }
    }
  }
}
