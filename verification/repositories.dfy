/**
 * ConsumerRepository and FavoriteRepository as pure store transitions. Each
 * operation that writes returns a `Reply`: the store after the commit and the
 * value (or the raised error) the caller sees.
 */
module Repositories {
  import opened Results
  import opened Domain
  import Paging

  /** How a consumer is looked up: by primary key or by email. */
  datatype ConsumerKey = ById(id: ConsumerId) | ByEmail(email: string)

  predicate Matches(c: Consumer, key: ConsumerKey) {
    match key
    case ById(id) => c.id == id
    case ByEmail(email) => c.email == email
  }

  /** Position of the first consumer that matches `key`. */
  function IndexOf(cs: seq<Consumer>, key: ConsumerKey): (r: Option<nat>)
    ensures r.Some? ==> r.value < |cs| && Matches(cs[r.value], key)
    ensures r.Some? ==> forall i | 0 <= i < r.value :: !Matches(cs[i], key)
    ensures r.None? <==> forall i | 0 <= i < |cs| :: !Matches(cs[i], key)
  {
    if cs == [] then None
    else if Matches(cs[0], key) then Some(0)
    else match IndexOf(cs[1..], key)
      case None => None
      case Some(k) => Some(k + 1)
  }

  /** `get_consumer_by_id`: the consumer row; its favourites are `FavoritesOf`. */
  function GetConsumerById(s: Store, id: ConsumerId): (r: Option<Consumer>)
    ensures r.Some? <==> HasConsumer(s, id)
    ensures r.Some? ==> r.value.id == id && r.value in s.consumers
  {
    match IndexOf(s.consumers, ById(id))
    case None => None
    case Some(k) => Some(s.consumers[k])
  }

  /** `get_consumer_by_email`: exact, case-sensitive match. */
  function GetConsumerByEmail(s: Store, email: string): (r: Option<Consumer>)
    ensures r.Some? <==> EmailTaken(s, email)
    ensures r.Some? ==> r.value.email == email && r.value in s.consumers
  {
    match IndexOf(s.consumers, ByEmail(email))
    case None => None
    case Some(k) => Some(s.consumers[k])
  }

  /**
   * `create_consumer`: refuses an email some consumer already has; otherwise
   * appends a consumer with a fresh id, the given name and email, and no
   * favourites.
   */
  function CreateConsumer(s: Store, name: string, email: string): (r: Reply<Consumer>)
    ensures EmailTaken(s, email) ==> r == Reply(s, Err(ConsumerEmailTaken))
    ensures !EmailTaken(s, email) ==>
      && r.result.Ok?
      && r.result.value.name == name && r.result.value.email == email
      && (FreshCounter(s) ==> !HasConsumer(s, r.result.value.id))
      && r.store.consumers == s.consumers + [r.result.value]
      && r.store.favorites == s.favorites && r.store.users == s.users
    ensures Valid(s) ==> Valid(r.store)
  {
    if GetConsumerByEmail(s, email).Some? then Reply(s, Err(ConsumerEmailTaken))
    else
      var c := Consumer(s.nextId, name, email);
      var s' := s.(consumers := s.consumers + [c], nextId := s.nextId + 1);
      assert Valid(s) ==> Valid(s') by {
        if Valid(s) {
          assert forall f | f in s'.favorites :: HasConsumer(s', f.consumer) by {
            forall f | f in s'.favorites ensures HasConsumer(s', f.consumer) {
              var i :| 0 <= i < |s.consumers| && s.consumers[i].id == f.consumer;
              assert s'.consumers[i].id == f.consumer;
            }
          }
        }
      }
      Reply(s', Ok(c))
  }

  /** A partial update: a field that is `None` (unset or null) is left alone. */
  datatype ConsumerUpdate = ConsumerUpdate(name: Option<string>, email: Option<string>)

  function Apply(c: Consumer, u: ConsumerUpdate): Consumer {
    Consumer(c.id, u.name.GetOr(c.name), u.email.GetOr(c.email))
  }

  /**
   * The email check of `update_consumer`. The source tests
   * `existing.id != consumer_id`, where `existing.id` is a `uuid.UUID` and
   * `consumer_id` the raw path string, so the test is true for every holder,
   * the consumer itself included (`asWritten`). The intended test compares ids.
   */
  predicate EmailBlocked(s: Store, id: ConsumerId, email: string, asWritten: bool) {
    match GetConsumerByEmail(s, email)
    case None => false
    case Some(holder) => asWritten || holder.id != id
  }

  function UpdateAt(s: Store, k: nat, u: ConsumerUpdate): Store
    requires k < |s.consumers|
  {
    s.(consumers := s.consumers[k := Apply(s.consumers[k], u)])
  }

  function UpdateWith(s: Store, id: ConsumerId, u: ConsumerUpdate, asWritten: bool): Reply<Option<Consumer>> {
    match IndexOf(s.consumers, ById(id))
    case None => Reply(s, Ok(None))
    case Some(k) =>
      if u.email.Some? && EmailBlocked(s, id, u.email.value, asWritten) then
        Reply(s, Err(ConsumerEmailTaken))
      else
        var s' := UpdateAt(s, k, u);
        Reply(s', Ok(Some(s'.consumers[k])))
  }

  /**
   * `update_consumer` with the id comparison it evidently intends: an unknown
   * id answers `None` and changes nothing; a new email held by ANOTHER consumer
   * is refused; otherwise exactly the fields present are overwritten.
   */
  function UpdateConsumer(s: Store, id: ConsumerId, u: ConsumerUpdate): (r: Reply<Option<Consumer>>)
    ensures !HasConsumer(s, id) ==> r == Reply(s, Ok(None))
    ensures Valid(s) && HasConsumer(s, id) && u.email.Some? ==>
      (r.result == Err(ConsumerEmailTaken) <==>
        exists i | 0 <= i < |s.consumers| :: s.consumers[i].email == u.email.value && s.consumers[i].id != id)
    ensures r.result.Err? ==> r.store == s
    ensures r.result.Ok? && r.result.value.Some? ==>
      exists k | 0 <= k < |s.consumers| ::
        && s.consumers[k].id == id
        && r.result.value.value == Apply(s.consumers[k], u)
        && r.store == s.(consumers := s.consumers[k := Apply(s.consumers[k], u)])
    ensures Valid(s) && HasConsumer(s, id) ==> r.result.Ok? || u.email.Some?
    ensures HasConsumer(s, id) && r.result.Ok? ==> r.result.value.Some?
    ensures r.result.Err? ==> r.result.error == ConsumerEmailTaken
    ensures Valid(s) ==> Valid(r.store)
  {
    UpdateEmailCheck(s, id, u);
    UpdatePreservesValid(s, id, u);
    UpdateWith(s, id, u, false)
  }

  lemma UpdateEmailCheck(s: Store, id: ConsumerId, u: ConsumerUpdate)
    ensures Valid(s) && HasConsumer(s, id) && u.email.Some? ==>
      (UpdateWith(s, id, u, false).result == Err(ConsumerEmailTaken) <==>
        exists i | 0 <= i < |s.consumers| :: s.consumers[i].email == u.email.value && s.consumers[i].id != id)
  {
    if IndexOf(s.consumers, ById(id)).Some? && u.email.Some? {
      var holder := GetConsumerByEmail(s, u.email.value);
      if holder.None? {
        assert forall i | 0 <= i < |s.consumers| :: s.consumers[i].email != u.email.value;
      } else {
        assert holder.value in s.consumers;
      }
    }
  }

  lemma UpdatePreservesValid(s: Store, id: ConsumerId, u: ConsumerUpdate)
    ensures Valid(s) ==> Valid(UpdateWith(s, id, u, false).store)
  {
    if Valid(s) && IndexOf(s.consumers, ById(id)).Some? {
      var k := IndexOf(s.consumers, ById(id)).value;
      var r := UpdateWith(s, id, u, false);
      if r.result.Ok? {
        var s' := r.store;
        assert s' == UpdateAt(s, k, u);
        assert forall i | 0 <= i < |s'.consumers| :: s'.consumers[i].id == s.consumers[i].id;
        if u.email.Some? {
          var e := u.email.value;
          assert !EmailBlocked(s, id, e, false);
          assert forall i | 0 <= i < |s.consumers| && i != k :: s.consumers[i].email != e;
        }
        assert UniqueEmails(s'.consumers);
        forall f | f in s'.favorites ensures HasConsumer(s', f.consumer) {
          var i :| 0 <= i < |s.consumers| && s.consumers[i].id == f.consumer;
          assert s'.consumers[i].id == f.consumer;
        }
      }
    }
  }

  /** `update_consumer` exactly as written: any holder of the email blocks it. */
  function UpdateConsumerAsWritten(s: Store, id: ConsumerId, u: ConsumerUpdate): (r: Reply<Option<Consumer>>)
    ensures !HasConsumer(s, id) ==> r == Reply(s, Ok(None))
    ensures HasConsumer(s, id) && u.email.Some? ==>
      (r.result == Err(ConsumerEmailTaken) <==> EmailTaken(s, u.email.value))
    ensures HasConsumer(s, id) && r.result.Ok? ==> r.result.value.Some?
    ensures r.result.Err? ==> r.result.error == ConsumerEmailTaken && r.store == s
    ensures Valid(s) && !(u.email.Some? && exists i | 0 <= i < |s.consumers| ::
                            s.consumers[i].id == id && s.consumers[i].email == u.email.value)
            ==> r == UpdateConsumer(s, id, u)
  {
    UpdateWith(s, id, u, true)
  }

  /**
   * The discrepancy: a consumer that re-submits its own email is refused by
   * the code as written, while the intended check accepts the request and
   * leaves the store as it was.
   */
  lemma OwnEmailRejectedAsWritten(s: Store, k: nat)
    requires Valid(s) && k < |s.consumers|
    ensures var c := s.consumers[k];
      var u := ConsumerUpdate(None, Some(c.email));
      && UpdateConsumerAsWritten(s, c.id, u) == Reply(s, Err(ConsumerEmailTaken))
      && UpdateConsumer(s, c.id, u) == Reply(s, Ok(Some(c)))
  {
    var c := s.consumers[k];
    var u := ConsumerUpdate(None, Some(c.email));
    assert IndexOf(s.consumers, ById(c.id)) == Some(k);
    assert IndexOf(s.consumers, ByEmail(c.email)) == Some(k);
    assert Apply(c, u) == c;
    assert s.consumers[k := c] == s.consumers;
  }

  /** With the intended check, writing back a consumer's own name and email changes nothing. */
  lemma UpdateWithOwnFieldsIsNoOp(s: Store, k: nat)
    requires Valid(s) && k < |s.consumers|
    ensures var c := s.consumers[k];
      UpdateConsumer(s, c.id, ConsumerUpdate(Some(c.name), Some(c.email))) == Reply(s, Ok(Some(c)))
  {
    var c := s.consumers[k];
    assert IndexOf(s.consumers, ById(c.id)) == Some(k);
    assert IndexOf(s.consumers, ByEmail(c.email)) == Some(k);
    assert s.consumers[k := c] == s.consumers;
  }

  /** Removes row `k` of a sequence. */
  function RemoveAt<T>(xs: seq<T>, k: nat): (r: seq<T>)
    requires k < |xs|
    ensures |r| == |xs| - 1
    ensures forall i | 0 <= i < k :: r[i] == xs[i]
    ensures forall i | k <= i < |r| :: r[i] == xs[i + 1]
  {
    xs[..k] + xs[k + 1..]
  }

  /** The favourites not owned by `c`, in order. */
  function DropOwner(fs: seq<Favorite>, c: ConsumerId): (r: seq<Favorite>)
    ensures forall f :: f in r <==> f in fs && f.consumer != c
    ensures UniquePairs(fs) ==> UniquePairs(r)
  {
    if fs == [] then []
    else
      var rest := DropOwner(fs[1..], c);
      if fs[0].consumer == c then rest
      else
        [fs[0]] + rest
  }

  /**
   * `delete_consumer`: `None` for an unknown id; otherwise the consumer row and,
   * through the cascade, all of its favourites are removed.
   */
  function DeleteConsumer(s: Store, id: ConsumerId): (r: Reply<Option<Consumer>>)
    ensures !HasConsumer(s, id) ==> r == Reply(s, Ok(None))
    ensures HasConsumer(s, id) ==>
      && r.result.Ok? && r.result.value.Some?
      && exists k | 0 <= k < |s.consumers| ::
        && s.consumers[k].id == id
        && r.result.value.value == s.consumers[k]
        && r.store.consumers == RemoveAt(s.consumers, k)
    ensures HasConsumer(s, id) && UniqueIds(s.consumers) ==> !HasConsumer(r.store, id)
    ensures forall i | 0 <= i < |s.consumers| && s.consumers[i].id != id :: s.consumers[i] in r.store.consumers
    ensures OwnedFavorites(s) ==> forall f :: f in r.store.favorites <==> f in s.favorites && f.consumer != id
    ensures OwnedFavorites(s) ==> FavoritesOf(r.store.favorites, id) == []
    ensures r.store.users == s.users && r.store.nextId == s.nextId
    ensures Valid(s) ==> Valid(r.store)
  {
    match IndexOf(s.consumers, ById(id))
    case None =>
      NoFavoritesOfUnknown(s, id);
      Reply(s, Ok(None))
    case Some(k) =>
      var s' := s.(consumers := RemoveAt(s.consumers, k), favorites := DropOwner(s.favorites, id));
      DeleteAtFacts(s, k, id);
      NotOwnedHasNone(s'.favorites, id);
      Reply(s', Ok(Some(s.consumers[k])))
  }

  lemma NoFavoritesOfUnknown(s: Store, id: ConsumerId)
    requires !HasConsumer(s, id)
    ensures OwnedFavorites(s) ==> FavoritesOf(s.favorites, id) == []
  {
    if OwnedFavorites(s) {
      NotOwnedHasNone(s.favorites, id);
    }
  }

  lemma {:induction false} NotOwnedHasNone(fs: seq<Favorite>, c: ConsumerId)
    requires forall f | f in fs :: f.consumer != c
    ensures FavoritesOf(fs, c) == []
  {
    if fs != [] {
      NotOwnedHasNone(fs[1..], c);
    }
  }

  lemma DeleteAtFacts(s: Store, k: nat, id: ConsumerId)
    requires k < |s.consumers| && s.consumers[k].id == id
    ensures var s' := s.(consumers := RemoveAt(s.consumers, k), favorites := DropOwner(s.favorites, id));
      && (forall i | 0 <= i < |s.consumers| && i != k :: s.consumers[i] in s'.consumers)
      && (UniqueIds(s.consumers) ==> !HasConsumer(s', id))
      && (Valid(s) ==> Valid(s'))
  {
    var s' := s.(consumers := RemoveAt(s.consumers, k), favorites := DropOwner(s.favorites, id));
    forall i | 0 <= i < |s.consumers| && i != k ensures s.consumers[i] in s'.consumers {
      if i < k { assert s'.consumers[i] == s.consumers[i]; }
      else { assert s'.consumers[i - 1] == s.consumers[i]; }
    }
    if UniqueIds(s.consumers) {
      forall i | 0 <= i < |s'.consumers| ensures s'.consumers[i].id != id {
        if i < k { assert s'.consumers[i] == s.consumers[i]; }
        else { assert s'.consumers[i] == s.consumers[i + 1]; }
      }
    }
    if Valid(s) {
      forall f | f in s'.favorites ensures HasConsumer(s', f.consumer) {
        var i :| 0 <= i < |s.consumers| && s.consumers[i].id == f.consumer;
        assert i != k;
        assert s.consumers[i] in s'.consumers;
      }
    }
  }

  /** `get_all_consumers_with_favorites(skip, limit)`: OFFSET skip LIMIT limit. */
  function ConsumersPage(s: Store, skip: nat, limit: nat): (r: seq<Consumer>)
    ensures |r| == Paging.Max(0, Paging.Min(limit, |s.consumers| - skip))
    ensures forall i | 0 <= i < |r| :: r[i] == s.consumers[skip + i]
  {
    Paging.Slice(s.consumers, skip, limit)
  }

  /**
   * `count_consumers`: `count(Consumer.id)`, the number of consumer rows; with
   * the primary key in force, the number of distinct consumer ids.
   */
  function CountConsumers(s: Store): (n: nat)
    ensures UniqueIds(s.consumers) ==> n == |set c | c in s.consumers :: c.id|
  {
    DistinctIdsCount(s.consumers);
    |s.consumers|
  }

  lemma {:induction false} DistinctIdsCount(cs: seq<Consumer>)
    ensures UniqueIds(cs) ==> |set c | c in cs :: c.id| == |cs|
  {
    if cs != [] && UniqueIds(cs) {
      var rest := cs[1..];
      var ids := set c | c in cs :: c.id;
      var restIds := set c | c in rest :: c.id;
      assert UniqueIds(rest);
      DistinctIdsCount(rest);
      forall x | x in ids ensures x in restIds + {cs[0].id} {
        var c :| c in cs && c.id == x;
        if c != cs[0] {
          assert c in rest;
        }
      }
      forall x | x in restIds ensures x in ids && x != cs[0].id {
        var i :| 0 <= i < |rest| && rest[i].id == x;
        assert cs[i + 1] == rest[i];
      }
      assert ids == restIds + {cs[0].id};
    }
  }

  /** The row insert the reconciler and `create_favorite` share. */
  function InsertFavorite(s: Store, f: Favorite): Store {
    s.(favorites := s.favorites + [f])
  }

  /**
   * `create_favorite`: the insert commits unless the pair already exists or the
   * consumer is missing, in which case the schema raises an integrity error.
   */
  function CreateFavorite(s: Store, c: ConsumerId, p: ProductId): (r: Reply<Favorite>)
    ensures !HasConsumer(s, c) || Favorite(c, p) in s.favorites ==> r == Reply(s, Err(IntegrityViolation))
    ensures HasConsumer(s, c) && Favorite(c, p) !in s.favorites ==>
      r.result == Ok(Favorite(c, p)) && r.store.favorites == s.favorites + [Favorite(c, p)]
    ensures r.store.consumers == s.consumers && r.store.users == s.users
    ensures Valid(s) ==> Valid(r.store)
  {
    if !HasConsumer(s, c) || Favorite(c, p) in s.favorites then Reply(s, Err(IntegrityViolation))
    else
      var s' := InsertFavorite(s, Favorite(c, p));
      InsertFreshPreservesValid(s, Favorite(c, p));
      Reply(s', Ok(Favorite(c, p)))
  }

  lemma InsertFreshPreservesValid(s: Store, f: Favorite)
    requires HasConsumer(s, f.consumer) && f !in s.favorites
    ensures Valid(s) ==> Valid(InsertFavorite(s, f))
  {
    var s' := InsertFavorite(s, f);
    if Valid(s) {
      forall i, j | 0 <= i < j < |s'.favorites| ensures s'.favorites[i] != s'.favorites[j] {
        if j == |s.favorites| { assert s'.favorites[i] in s.favorites; }
      }
    }
  }

  /** `get_favorite_by_product`: the row for the pair, if any. */
  function GetFavoriteByProduct(s: Store, c: ConsumerId, p: ProductId): (r: Option<Favorite>)
    ensures r.Some? <==> Favorite(c, p) in s.favorites
    ensures r.Some? ==> r.value == Favorite(c, p)
  {
    if Favorite(c, p) in s.favorites then Some(Favorite(c, p)) else None
  }

  /** The favourites other than `f`, in order. */
  function Without(fs: seq<Favorite>, f: Favorite): (r: seq<Favorite>)
    ensures forall g :: g in r <==> g in fs && g != f
    ensures UniquePairs(fs) ==> UniquePairs(r)
    ensures f in fs && UniquePairs(fs) ==> |r| == |fs| - 1
    ensures f !in fs ==> r == fs
  {
    if fs == [] then []
    else
      var rest := Without(fs[1..], f);
      assert UniquePairs(fs) ==> fs[0] !in fs[1..];
      if fs[0] == f then rest else [fs[0]] + rest
  }

  /** `delete_favorite`: removes exactly the given row. */
  function DeleteFavorite(s: Store, f: Favorite): (r: Store)
    ensures forall g :: g in r.favorites <==> g in s.favorites && g != f
    ensures f in s.favorites && UniquePairs(s.favorites) ==> |r.favorites| == |s.favorites| - 1
    ensures r.consumers == s.consumers && r.users == s.users && r.nextId == s.nextId
    ensures Valid(s) ==> Valid(r)
  {
    s.(favorites := Without(s.favorites, f))
  }
}
