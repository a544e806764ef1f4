/**
 * The consumer routes that carry domain logic: the batch favourite endpoints
 * (`add_favorites` and its copy `update_favorites`, which differ only in their
 * message), `remove_favorite`, and consumer creation with its request checks.
 */
module ConsumerRoutes {
  import opened Results
  import opened Domain
  import opened Repositories
  import opened Reconciler
  import opened ConsumerSchemas
  import Decimal

  /** The body of a batch response. */
  datatype BatchReport = BatchReport(
    message: string,
    added: seq<ProductId>,
    alreadyExists: seq<ProductId>,
    notFound: seq<ProductId>)

  const AddedMessage := "Favorites added successfully"
  const UpdatedMessage := "Favorites updated successfully"

  /**
   * The shared body of both batch endpoints: the request must name at least one
   * id; the consumer is checked once, before any catalogue lookup or insert;
   * then every id is reconciled in order.
   */
  function Batch(s: Store, c: ConsumerId, catalog: Catalog, ids: seq<ProductId>, message: string): Reply<BatchReport> {
    match ValidateFavoriteCreate(ids)
    case Some(e) => Reply(s, Err(e))
    case None =>
      if GetConsumerById(s, c).None? then Reply(s, Err(ConsumerNotFound))
      else
        var r := Reconcile(s, c, catalog, ids);
        Reply(r.store, Ok(BatchReport(message, r.added, r.alreadyExists, r.notFound)))
  }

  /** `add_favorites`. */
  function AddFavorites(s: Store, c: ConsumerId, catalog: Catalog, ids: seq<ProductId>): (r: Reply<BatchReport>)
    ensures ids == [] ==> r == Reply(s, Err(ValidationError("product_ids")))
    ensures ids != [] && !HasConsumer(s, c) ==> r == Reply(s, Err(ConsumerNotFound))
    ensures ids != [] && HasConsumer(s, c) ==>
      && r.result.Ok?
      && r.result.value.message == AddedMessage
      && Interleaving(ids, r.result.value.added, r.result.value.alreadyExists, r.result.value.notFound)
      && r.result.value.notFound == Unresolved(ids, catalog)
      && Distinct(r.result.value.added)
      && (forall p | p in r.result.value.added :: p in catalog && Favorite(c, p) !in s.favorites)
      && (forall p | p in ids && p in catalog && Favorite(c, p) !in s.favorites :: p in r.result.value.added)
      && r.result.value.added == FirstFresh(ids, catalog, KnownProducts(s, c))
      && r.result.value.alreadyExists == SeenBefore(ids, catalog, KnownProducts(s, c))
      && r.store == s.(favorites := s.favorites + PairsFor(c, r.result.value.added))
    ensures Valid(s) ==> Valid(r.store)
  {
    ReconcileInterleaves(s, c, catalog, ids);
    ReconcileNotFound(s, c, catalog, ids);
    ReconcileAddedFresh(s, c, catalog, ids);
    ReconcileAddedComplete(s, c, catalog, ids);
    ReconcileStore(s, c, catalog, ids);
    ReconcileKeepsValid(s, c, catalog, ids);
    ReconcileMatchesReference(s, c, catalog, ids);
    Batch(s, c, catalog, ids, AddedMessage)
  }

  /** `update_favorites`: the same classification and effect as `add_favorites`, another message. */
  function UpdateFavorites(s: Store, c: ConsumerId, catalog: Catalog, ids: seq<ProductId>): (r: Reply<BatchReport>)
    ensures var a := AddFavorites(s, c, catalog, ids);
      && r.store == a.store
      && (a.result.Err? ==> r.result == a.result)
      && (a.result.Ok? ==> r.result == Ok(a.result.value.(message := UpdatedMessage)))
  {
    Batch(s, c, catalog, ids, UpdatedMessage)
  }

  /** Sending the same batch twice: nothing is added the second time. */
  lemma AddFavoritesTwice(s: Store, c: ConsumerId, catalog: Catalog, ids: seq<ProductId>)
    requires ids != [] && HasConsumer(s, c)
    ensures var r1 := AddFavorites(s, c, catalog, ids);
      var r2 := AddFavorites(r1.store, c, catalog, ids);
      && r2.result.Ok?
      && r2.result.value.added == []
      && r2.result.value.alreadyExists == Resolved(ids, catalog)
      && (forall p | p in r1.result.value.added :: p in r2.result.value.alreadyExists)
      && r2.result.value.notFound == r1.result.value.notFound
      && r2.store == r1.store
  {
    ReconcileIdempotent(s, c, catalog, ids);
    var r1 := Reconcile(s, c, catalog, ids);
    assert r1.store.consumers == s.consumers by {
      ReconcileStore(s, c, catalog, ids);
    }
  }

  /**
   * `remove_favorite`: a non-numeric id is refused before anything is looked
   * up; then the consumer, the product (requested as `str(int(id))`) and the
   * favourite (looked up with the id as sent) are checked in that order; on
   * success exactly that favourite is deleted.
   */
  function RemoveFavorite(s: Store, c: ConsumerId, catalog: Catalog, productId: string): (r: Reply<()>)
    ensures !Decimal.IsDigits(productId) ==> r == Reply(s, Err(InvalidProductId))
    ensures Decimal.IsDigits(productId) && !HasConsumer(s, c) ==> r == Reply(s, Err(ConsumerNotFound))
    ensures (&& Decimal.IsDigits(productId) && HasConsumer(s, c)
             && Decimal.Render(Decimal.Value(productId)) !in catalog)
            ==> r == Reply(s, Err(ProductNotFound))
    ensures (&& Decimal.IsDigits(productId) && HasConsumer(s, c)
             && Decimal.Render(Decimal.Value(productId)) in catalog
             && Favorite(c, productId) !in s.favorites)
            ==> r == Reply(s, Err(FavoriteNotFound))
    ensures (&& Decimal.IsDigits(productId) && HasConsumer(s, c)
             && Decimal.Render(Decimal.Value(productId)) in catalog
             && Favorite(c, productId) in s.favorites)
            ==> r == Reply(DeleteFavorite(s, Favorite(c, productId)), Ok(()))
    ensures r.result.Ok? ==>
      && Favorite(c, productId) in s.favorites
      && (forall g :: g in r.store.favorites <==> g in s.favorites && g != Favorite(c, productId))
      && r.store.consumers == s.consumers && r.store.users == s.users
    ensures Valid(s) ==> Valid(r.store)
  {
    if !Decimal.IsDigits(productId) then Reply(s, Err(InvalidProductId))
    else if GetConsumerById(s, c).None? then Reply(s, Err(ConsumerNotFound))
    else if Decimal.Render(Decimal.Value(productId)) !in catalog then Reply(s, Err(ProductNotFound))
    else match GetFavoriteByProduct(s, c, productId)
      case None => Reply(s, Err(FavoriteNotFound))
      case Some(f) => Reply(DeleteFavorite(s, f), Ok(()))
  }

  lemma {:induction false} WithoutLast(fs: seq<Favorite>, f: Favorite)
    requires f !in fs
    ensures Without(fs + [f], f) == fs
  {
    if fs != [] {
      assert (fs + [f])[1..] == fs[1..] + [f];
      WithoutLast(fs[1..], f);
      assert fs == [fs[0]] + fs[1..];
    }
  }

  /**
   * Removing a favourite that one batch just added undoes the batch: for a
   * numeric id written without leading zeros, the store returns to what it was.
   */
  lemma AddThenRemove(s: Store, c: ConsumerId, catalog: Catalog, p: ProductId)
    requires HasConsumer(s, c) && p in catalog && Favorite(c, p) !in s.favorites
    requires Decimal.IsDigits(p) && (|p| == 1 || p[0] != '0')
    ensures var a := AddFavorites(s, c, catalog, [p]);
      var d := RemoveFavorite(a.store, c, catalog, p);
      a.result.Ok? && a.result.value.added == [p] && d.result.Ok? && d.store == s
  {
    var a := AddFavorites(s, c, catalog, [p]);
    assert [p][1..] == [];
    assert Reconcile(s, c, catalog, [p]).added == [p];
    assert PairsFor(c, [p]) == [Favorite(c, p)];
    Decimal.RenderOfValue(p);
    WithoutLast(s.favorites, Favorite(c, p));
  }

  /** `create_consumer` behind its request checks: a name of 1 to 255 characters. */
  function CreateConsumerRoute(s: Store, name: string, email: string): (r: Reply<Consumer>)
    ensures !(1 <= |name| <= 255) ==> r == Reply(s, Err(ValidationError("name")))
    ensures 1 <= |name| <= 255 ==> r == CreateConsumer(s, name, email)
  {
    match ValidateConsumerCreate(name)
    case Some(e) => Reply(s, Err(e))
    case None => CreateConsumer(s, name, email)
  }

  /** A created consumer reads back by id with its name and email and no favourites. */
  lemma CreateThenRead(s: Store, name: string, email: string)
    requires Valid(s) && 1 <= |name| <= 255 && !EmailTaken(s, email)
    ensures var r := CreateConsumerRoute(s, name, email);
      && r.result.Ok?
      && GetConsumerById(r.store, r.result.value.id) == Some(Consumer(r.result.value.id, name, email))
      && FavoritesOf(r.store.favorites, r.result.value.id) == []
  {
    var r := CreateConsumer(s, name, email);
    var c := r.result.value;
    var k := |s.consumers|;
    assert r.store.consumers[k] == c;
    assert IndexOf(r.store.consumers, ById(c.id)) == Some(k);
    forall f | f in r.store.favorites ensures f.consumer != c.id {
      assert f in s.favorites;
    }
    NotOwnedHasNone(r.store.favorites, c.id);
  }

  /** Creating a second consumer with the same email fails and leaves one holder. */
  lemma CreateTwiceConflicts(s: Store, n1: string, n2: string, email: string)
    requires Valid(s) && ValidName(n1) && ValidName(n2) && !EmailTaken(s, email)
    ensures var r1 := CreateConsumerRoute(s, n1, email);
      var r2 := CreateConsumerRoute(r1.store, n2, email);
      && r2 == Reply(r1.store, Err(ConsumerEmailTaken))
      && Valid(r2.store)
      && GetConsumerByEmail(r2.store, email) == Some(r1.result.value)
  {
    var r1 := CreateConsumer(s, n1, email);
    var k := |s.consumers|;
    assert r1.store.consumers[k].email == email;
    assert IndexOf(r1.store.consumers, ByEmail(email)) == Some(k);
  }

  /** The unit-test scenario: ids "1" and "2" are added, then found to exist. */
  lemma ExampleBatchTwice(catalog: Catalog)
    requires "1" in catalog && "2" in catalog
    ensures var s := Store([Consumer(7, "Test", "test@example.com")], [], map[], 8);
      var r1 := AddFavorites(s, 7, catalog, ["1", "2"]);
      var r2 := AddFavorites(r1.store, 7, catalog, ["1", "2"]);
      && r1.result == Ok(BatchReport(AddedMessage, ["1", "2"], [], []))
      && r2.result == Ok(BatchReport(AddedMessage, [], ["1", "2"], []))
  {
    var s := Store([Consumer(7, "Test", "test@example.com")], [], map[], 8);
    assert s.consumers[0].id == 7;
    var s1 := InsertFavorite(s, Favorite(7, "1"));
    var s2 := InsertFavorite(s1, Favorite(7, "2"));
    assert Reconcile(s2, 7, catalog, []) == Classified(s2, [], [], []);
    assert ["1", "2"][1..] == ["2"];
    assert Reconcile(s1, 7, catalog, ["2"]) == Classified(s2, ["2"], [], []);
    assert Reconcile(s, 7, catalog, ["1", "2"]) == Classified(s2, ["1", "2"], [], []);
    assert Favorite(7, "2") in s2.favorites && Favorite(7, "1") in s2.favorites;
    assert Reconcile(s2, 7, catalog, ["2"]) == Classified(s2, [], ["2"], []);
    assert Reconcile(s2, 7, catalog, ["1", "2"]) == Classified(s2, [], ["1", "2"], []);
  }

  /** An id the catalogue does not resolve is reported, not stored. */
  lemma ExampleUnknownProduct(s: Store, c: ConsumerId, catalog: Catalog)
    requires HasConsumer(s, c) && "105" !in catalog
    ensures AddFavorites(s, c, catalog, ["105"]) == Reply(s, Ok(BatchReport(AddedMessage, [], [], ["105"])))
  {
    assert ["105"][1..] == [];
    assert Reconcile(s, c, catalog, ["105"]) == Classified(s, [], [], ["105"]);
  }

  /** "abc" is refused with 422 whatever the store and catalogue hold. */
  lemma ExampleNonNumericRemoval(s: Store, c: ConsumerId, catalog: Catalog)
    ensures RemoveFavorite(s, c, catalog, "abc") == Reply(s, Err(InvalidProductId))
    ensures StatusCode(InvalidProductId) == 422
    ensures Detail(InvalidProductId) == "Product ID must be a numeric value"
  {
    assert "abc"[0] == 'a' && !Decimal.IsDigit('a');
  }
}
