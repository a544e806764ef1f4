/**
 * The loop shared by `add_favorites` and `update_favorites`: each requested id,
 * in input order, is looked up in the catalogue, then among the consumer's
 * favourites, and is filed under exactly one of `notFound`, `alreadyExists` or
 * `added`; an `added` id is inserted (and committed) before the next id is
 * looked at.
 */
module Reconciler {
  import opened Results
  import opened Domain
  import opened Repositories

  /** The three lists of the response and the store the loop leaves behind. */
  datatype Classified = Classified(
    store: Store,
    added: seq<ProductId>,
    alreadyExists: seq<ProductId>,
    notFound: seq<ProductId>)

  /** One iteration per requested id, in order, threading the store through. */
  function Reconcile(s: Store, c: ConsumerId, catalog: Catalog, ids: seq<ProductId>): (r: Classified)
    ensures |r.added| + |r.alreadyExists| + |r.notFound| == |ids|
    ensures |r.store.favorites| == |s.favorites| + |r.added|
    ensures r.store.consumers == s.consumers && r.store.users == s.users && r.store.nextId == s.nextId
    decreases |ids|
  {
    if ids == [] then Classified(s, [], [], [])
    else
      var p := ids[0];
      if p !in catalog then
        var r := Reconcile(s, c, catalog, ids[1..]);
        r.(notFound := [p] + r.notFound)
      else if GetFavoriteByProduct(s, c, p).Some? then
        var r := Reconcile(s, c, catalog, ids[1..]);
        r.(alreadyExists := [p] + r.alreadyExists)
      else
        var r := Reconcile(InsertFavorite(s, Favorite(c, p)), c, catalog, ids[1..]);
        r.(added := [p] + r.added)
  }

  /**
   * `xs` is an interleaving of `a`, `b` and `d`: every element of `xs` goes to
   * exactly one of them and each of them keeps the order of `xs`.
   */
  ghost predicate Interleaving<T>(xs: seq<T>, a: seq<T>, b: seq<T>, d: seq<T>)
    decreases |xs|
  {
    if xs == [] then a == [] && b == [] && d == []
    else
      || (a != [] && a[0] == xs[0] && Interleaving(xs[1..], a[1..], b, d))
      || (b != [] && b[0] == xs[0] && Interleaving(xs[1..], a, b[1..], d))
      || (d != [] && d[0] == xs[0] && Interleaving(xs[1..], a, b, d[1..]))
  }

  /** An interleaving is a partition of the input, duplicates counted. */
  lemma {:induction false} InterleavingPartitions<T>(xs: seq<T>, a: seq<T>, b: seq<T>, d: seq<T>)
    requires Interleaving(xs, a, b, d)
    ensures multiset(a) + multiset(b) + multiset(d) == multiset(xs)
    ensures |a| + |b| + |d| == |xs|
    decreases |xs|
  {
    if xs != [] {
      assert xs == [xs[0]] + xs[1..];
      if a != [] && a[0] == xs[0] && Interleaving(xs[1..], a[1..], b, d) {
        InterleavingPartitions(xs[1..], a[1..], b, d);
        assert a == [a[0]] + a[1..];
      } else if b != [] && b[0] == xs[0] && Interleaving(xs[1..], a, b[1..], d) {
        InterleavingPartitions(xs[1..], a, b[1..], d);
        assert b == [b[0]] + b[1..];
      } else {
        InterleavingPartitions(xs[1..], a, b, d[1..]);
        assert d == [d[0]] + d[1..];
      }
    }
  }

  /** Every requested id lands in exactly one list, and each list keeps input order. */
  lemma {:induction false} ReconcileInterleaves(s: Store, c: ConsumerId, catalog: Catalog, ids: seq<ProductId>)
    ensures var r := Reconcile(s, c, catalog, ids);
      Interleaving(ids, r.added, r.alreadyExists, r.notFound)
    decreases |ids|
  {
    if ids != [] {
      var p := ids[0];
      if p !in catalog || GetFavoriteByProduct(s, c, p).Some? {
        ReconcileInterleaves(s, c, catalog, ids[1..]);
        var r := Reconcile(s, c, catalog, ids[1..]);
        assert ([p] + r.notFound)[1..] == r.notFound;
        assert ([p] + r.alreadyExists)[1..] == r.alreadyExists;
      } else {
        ReconcileInterleaves(InsertFavorite(s, Favorite(c, p)), c, catalog, ids[1..]);
        var r := Reconcile(InsertFavorite(s, Favorite(c, p)), c, catalog, ids[1..]);
        assert ([p] + r.added)[1..] == r.added;
      }
    }
  }

  /** The requested ids the catalogue does not resolve, in input order. */
  function Unresolved(ids: seq<ProductId>, catalog: Catalog): (r: seq<ProductId>)
    ensures forall p :: p in r <==> p in ids && p !in catalog
  {
    if ids == [] then []
    else if ids[0] !in catalog then [ids[0]] + Unresolved(ids[1..], catalog)
    else Unresolved(ids[1..], catalog)
  }

  /** The requested ids the catalogue resolves, in input order. */
  function Resolved(ids: seq<ProductId>, catalog: Catalog): (r: seq<ProductId>)
    ensures forall p :: p in r <==> p in ids && p in catalog
  {
    if ids == [] then []
    else if ids[0] in catalog then [ids[0]] + Resolved(ids[1..], catalog)
    else Resolved(ids[1..], catalog)
  }

  /** The favourite rows `(c, p)` for the ids `ps`, in order. */
  function PairsFor(c: ConsumerId, ps: seq<ProductId>): (fs: seq<Favorite>)
  {
    if ps == [] then [] else [Favorite(c, ps[0])] + PairsFor(c, ps[1..])
  }

  lemma {:induction false} PairsForHas(c: ConsumerId, ps: seq<ProductId>, p: ProductId)
    requires p in ps
    ensures Favorite(c, p) in PairsFor(c, ps)
  {
    if ps[0] != p {
      PairsForHas(c, ps[1..], p);
    }
  }

  /** `notFound` is exactly the ids the catalogue does not resolve, in input order. */
  lemma {:induction false} ReconcileNotFound(s: Store, c: ConsumerId, catalog: Catalog, ids: seq<ProductId>)
    ensures Reconcile(s, c, catalog, ids).notFound == Unresolved(ids, catalog)
    decreases |ids|
  {
    if ids != [] {
      var p := ids[0];
      if p !in catalog || GetFavoriteByProduct(s, c, p).Some? {
        ReconcileNotFound(s, c, catalog, ids[1..]);
      } else {
        ReconcileNotFound(InsertFavorite(s, Favorite(c, p)), c, catalog, ids[1..]);
      }
    }
  }

  /**
   * The store after the batch is the store before plus the rows for `added`,
   * appended in order: consumers, users and every other row are untouched.
   */
  lemma {:induction false} ReconcileStore(s: Store, c: ConsumerId, catalog: Catalog, ids: seq<ProductId>)
    ensures var r := Reconcile(s, c, catalog, ids);
      r.store == s.(favorites := s.favorites + PairsFor(c, r.added))
    decreases |ids|
  {
    var r := Reconcile(s, c, catalog, ids);
    if ids == [] {
      assert r.added == [];
      assert s.favorites + PairsFor(c, []) == s.favorites;
    } else {
      var p := ids[0];
      if p !in catalog || GetFavoriteByProduct(s, c, p).Some? {
        var r1 := Reconcile(s, c, catalog, ids[1..]);
        assert r.store == r1.store && r.added == r1.added;
        ReconcileStore(s, c, catalog, ids[1..]);
      } else {
        var s1 := InsertFavorite(s, Favorite(c, p));
        var r1 := Reconcile(s1, c, catalog, ids[1..]);
        assert r.store == r1.store && r.added == [p] + r1.added;
        ReconcileStore(s1, c, catalog, ids[1..]);
        var tail := PairsFor(c, r1.added);
        assert r.added[1..] == r1.added;
        assert PairsFor(c, r.added) == [Favorite(c, p)] + tail;
        assert s.favorites + ([Favorite(c, p)] + tail) == (s.favorites + [Favorite(c, p)]) + tail;
      }
    }
  }

  /** Every added id resolves and was not a favourite; no id is added twice. */
  lemma {:induction false} ReconcileAddedFresh(s: Store, c: ConsumerId, catalog: Catalog, ids: seq<ProductId>)
    ensures var r := Reconcile(s, c, catalog, ids);
      && Distinct(r.added)
      && (forall p | p in r.added :: p in ids && p in catalog && Favorite(c, p) !in s.favorites)
    decreases |ids|
  {
    if ids != [] {
      var p := ids[0];
      if p !in catalog || GetFavoriteByProduct(s, c, p).Some? {
        ReconcileAddedFresh(s, c, catalog, ids[1..]);
      } else {
        var s1 := InsertFavorite(s, Favorite(c, p));
        ReconcileAddedFresh(s1, c, catalog, ids[1..]);
        var r1 := Reconcile(s1, c, catalog, ids[1..]);
        assert Favorite(c, p) in s1.favorites;
        assert p !in r1.added;
        assert forall q | q in r1.added :: Favorite(c, q) !in s.favorites;
      }
    }
  }

  /** Every resolvable id that was not a favourite before the batch is added. */
  lemma {:induction false} ReconcileAddedComplete(s: Store, c: ConsumerId, catalog: Catalog, ids: seq<ProductId>)
    ensures var r := Reconcile(s, c, catalog, ids);
      forall p | p in ids && p in catalog && Favorite(c, p) !in s.favorites :: p in r.added
    decreases |ids|
  {
    if ids != [] {
      var p := ids[0];
      var r := Reconcile(s, c, catalog, ids);
      if p !in catalog || GetFavoriteByProduct(s, c, p).Some? {
        ReconcileAddedComplete(s, c, catalog, ids[1..]);
        forall q | q in ids && q in catalog && Favorite(c, q) !in s.favorites ensures q in r.added {
          assert q != p;
          assert q in ids[1..];
        }
      } else {
        var s1 := InsertFavorite(s, Favorite(c, p));
        ReconcileAddedComplete(s1, c, catalog, ids[1..]);
        forall q | q in ids && q in catalog && Favorite(c, q) !in s.favorites ensures q in r.added {
          if q != p {
            assert q in ids[1..];
            assert Favorite(c, q) !in s1.favorites;
          }
        }
      }
    }
  }

  /** Once every resolvable id is a favourite, the batch changes nothing and adds nothing. */
  lemma {:induction false} ReconcileSaturated(s: Store, c: ConsumerId, catalog: Catalog, ids: seq<ProductId>)
    requires forall p | p in ids && p in catalog :: Favorite(c, p) in s.favorites
    ensures Reconcile(s, c, catalog, ids) ==
      Classified(s, [], Resolved(ids, catalog), Unresolved(ids, catalog))
    decreases |ids|
  {
    if ids != [] {
      ReconcileSaturated(s, c, catalog, ids[1..]);
    }
  }

  /**
   * Repeating a batch: the second run adds nothing, files every resolvable id
   * (in particular every id the first run added) under `alreadyExists`, reports
   * the same `notFound`, and leaves the store as the first run left it.
   */
  lemma ReconcileIdempotent(s: Store, c: ConsumerId, catalog: Catalog, ids: seq<ProductId>)
    ensures var r1 := Reconcile(s, c, catalog, ids);
      var r2 := Reconcile(r1.store, c, catalog, ids);
      && r2.added == []
      && r2.alreadyExists == Resolved(ids, catalog)
      && (forall p | p in r1.added :: p in r2.alreadyExists)
      && r2.notFound == r1.notFound
      && r2.store == r1.store
  {
    var r1 := Reconcile(s, c, catalog, ids);
    ReconcileStore(s, c, catalog, ids);
    ReconcileAddedComplete(s, c, catalog, ids);
    ReconcileAddedFresh(s, c, catalog, ids);
    ReconcileNotFound(s, c, catalog, ids);
    forall p | p in ids && p in catalog ensures Favorite(c, p) in r1.store.favorites {
      if Favorite(c, p) !in s.favorites {
        PairsForHas(c, r1.added, p);
      }
    }
    ReconcileSaturated(r1.store, c, catalog, ids);
  }

  /** The products consumer `c` has as favourites in store `s`. */
  function KnownProducts(s: Store, c: ConsumerId): set<ProductId> {
    set f | f in s.favorites && f.consumer == c :: f.product
  }

  /**
   * Reference account of `added`, independent of the store: in input order,
   * every id that resolves, is not in `known` and does not occur earlier in
   * the batch (each id seen joins `known`).
   */
  function FirstFresh(ids: seq<ProductId>, catalog: Catalog, known: set<ProductId>): seq<ProductId>
    decreases |ids|
  {
    if ids == [] then []
    else
      var p := ids[0];
      (if p in catalog && p !in known then [p] else []) + FirstFresh(ids[1..], catalog, known + {p})
  }

  /**
   * Reference account of `alreadyExists`: in input order, every id that
   * resolves and is in `known` or occurs earlier in the batch.
   */
  function SeenBefore(ids: seq<ProductId>, catalog: Catalog, known: set<ProductId>): seq<ProductId>
    decreases |ids|
  {
    if ids == [] then []
    else
      var p := ids[0];
      (if p in catalog && p in known then [p] else []) + SeenBefore(ids[1..], catalog, known + {p})
  }

  /** Remembering an id the catalogue does not resolve changes neither account. */
  lemma {:induction false} UnresolvedIgnored(ids: seq<ProductId>, catalog: Catalog, known: set<ProductId>, p: ProductId)
    requires p !in catalog
    ensures FirstFresh(ids, catalog, known + {p}) == FirstFresh(ids, catalog, known)
    ensures SeenBefore(ids, catalog, known + {p}) == SeenBefore(ids, catalog, known)
    decreases |ids|
  {
    if ids != [] {
      var q := ids[0];
      assert known + {p} + {q} == known + {q} + {p};
      UnresolvedIgnored(ids[1..], catalog, known + {q}, p);
    }
  }

  lemma InsertKnown(s: Store, c: ConsumerId, p: ProductId)
    ensures KnownProducts(InsertFavorite(s, Favorite(c, p)), c) == KnownProducts(s, c) + {p}
  {
    var s1 := InsertFavorite(s, Favorite(c, p));
    assert Favorite(c, p) in s1.favorites;
    forall q | q in KnownProducts(s1, c) ensures q in KnownProducts(s, c) + {p} {
      var f :| f in s1.favorites && f.consumer == c && f.product == q;
      if f != Favorite(c, p) {
        assert f in s.favorites;
      }
    }
  }

  /**
   * The batch agrees with the reference accounts: `added` is, in order, each
   * new resolvable id at its FIRST occurrence, and `alreadyExists` is every
   * later occurrence together with every id that was a favourite already.
   */
  lemma {:induction false} ReconcileMatchesReference(s: Store, c: ConsumerId, catalog: Catalog, ids: seq<ProductId>)
    ensures var r := Reconcile(s, c, catalog, ids);
      && r.added == FirstFresh(ids, catalog, KnownProducts(s, c))
      && r.alreadyExists == SeenBefore(ids, catalog, KnownProducts(s, c))
    decreases |ids|
  {
    if ids != [] {
      var p := ids[0];
      var k := KnownProducts(s, c);
      if p !in catalog {
        ReconcileMatchesReference(s, c, catalog, ids[1..]);
        UnresolvedIgnored(ids[1..], catalog, k, p);
      } else if GetFavoriteByProduct(s, c, p).Some? {
        assert p in k;
        assert k + {p} == k;
        ReconcileMatchesReference(s, c, catalog, ids[1..]);
      } else {
        assert p !in k;
        InsertKnown(s, c, p);
        ReconcileMatchesReference(InsertFavorite(s, Favorite(c, p)), c, catalog, ids[1..]);
      }
    }
  }

  /**
   * An id repeated within one batch: a resolvable id that was not a favourite
   * is added once, and its remaining occurrences are all filed under
   * `alreadyExists`; one that was a favourite is never added.
   */
  lemma ReconcileRepeats(s: Store, c: ConsumerId, catalog: Catalog, ids: seq<ProductId>, p: ProductId)
    requires p in catalog
    ensures var r := Reconcile(s, c, catalog, ids);
      && multiset(r.added)[p] == (if p in ids && Favorite(c, p) !in s.favorites then 1 else 0)
      && multiset(r.alreadyExists)[p] == multiset(ids)[p] - multiset(r.added)[p]
  {
    var r := Reconcile(s, c, catalog, ids);
    ReconcileAddedFresh(s, c, catalog, ids);
    ReconcileAddedComplete(s, c, catalog, ids);
    ReconcileNotFound(s, c, catalog, ids);
    ReconcileInterleaves(s, c, catalog, ids);
    InterleavingPartitions(ids, r.added, r.alreadyExists, r.notFound);
    assert p !in r.notFound;
    assert multiset(r.notFound)[p] == 0;
    DistinctCount(r.added, p);
  }

  /** `[p, q, p]` with both new and resolvable: `p` is added at its first occurrence. */
  lemma RepeatedIdAddedFirst(s: Store, c: ConsumerId, catalog: Catalog, p: ProductId, q: ProductId)
    requires p != q && p in catalog && q in catalog
    requires Favorite(c, p) !in s.favorites && Favorite(c, q) !in s.favorites
    ensures var r := Reconcile(s, c, catalog, [p, q, p]);
      r.added == [p, q] && r.alreadyExists == [p] && r.notFound == []
  {
    var k := KnownProducts(s, c);
    ReconcileMatchesReference(s, c, catalog, [p, q, p]);
    ReconcileNotFound(s, c, catalog, [p, q, p]);
    assert p !in k && q !in k;
    var k2 := k + {p} + {q};
    assert [p, q, p][1..] == [q, p] && [q, p][1..] == [p] && [p][1..] == [];
    assert FirstFresh([p], catalog, k2) == [] && SeenBefore([p], catalog, k2) == [p];
    assert FirstFresh([q, p], catalog, k + {p}) == [q] && SeenBefore([q, p], catalog, k + {p}) == [p];
    assert FirstFresh([p, q, p], catalog, k) == [p, q];
    assert SeenBefore([p, q, p], catalog, k) == [p];
  }

  lemma {:induction false} DistinctCount<T>(xs: seq<T>, x: T)
    requires Distinct(xs)
    ensures multiset(xs)[x] == if x in xs then 1 else 0
  {
    if xs != [] {
      assert xs == [xs[0]] + xs[1..];
      assert Distinct(xs[1..]);
      DistinctCount(xs[1..], x);
    }
  }

  /** The batch keeps the store invariants. */
  lemma ReconcileKeepsValid(s: Store, c: ConsumerId, catalog: Catalog, ids: seq<ProductId>)
    ensures HasConsumer(s, c) && Valid(s) ==> Valid(Reconcile(s, c, catalog, ids).store)
    decreases |ids|
  {
    if ids != [] && HasConsumer(s, c) {
      var p := ids[0];
      if p in catalog && GetFavoriteByProduct(s, c, p).None? {
        var s1 := InsertFavorite(s, Favorite(c, p));
        InsertFreshPreservesValid(s, Favorite(c, p));
        assert s1.consumers == s.consumers;
        ReconcileKeepsValid(s1, c, catalog, ids[1..]);
      } else {
        ReconcileKeepsValid(s, c, catalog, ids[1..]);
      }
    }
  }
}
