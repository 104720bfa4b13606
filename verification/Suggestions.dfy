/** Ranking of registered model names by distance to the claimed one: `registered_model_suggestions`. */
module Suggestions {
  import opened EditDistance

  type Name = seq<Byte>

  const REGISTERED_MODEL_SUGGESTION_LIMIT: nat := 5

  // ----- Order -----

  /** Byte-wise lexicographic order. */
  predicate Less(a: Name, b: Name) {
    b != [] && (a == [] || a[0] < b[0] || (a[0] == b[0] && Less(a[1..], b[1..])))
  }

  lemma {:induction false} LessTotal(a: Name, b: Name)
    ensures !(Less(a, b) && Less(b, a))
    ensures a == b || Less(a, b) || Less(b, a)
    ensures !Less(a, a)
    decreases |a|
  {
    if a != [] {
      LessTotal(a[1..], if b == [] then [] else b[1..]);
      assert b != [] ==> (a == [a[0]] + a[1..] && b == [b[0]] + b[1..]);
    }
  }

  lemma {:induction false} LessTransitive(a: Name, b: Name, c: Name)
    requires Less(a, b) && Less(b, c)
    ensures Less(a, c)
    decreases |a|
  {
    if a != [] && a[0] == b[0] == c[0] {
      LessTransitive(a[1..], b[1..], c[1..]);
    }
  }

  /** The names agree before `k`, and there the first one ends or has the smaller byte. */
  predicate Decides(a: Name, b: Name, k: nat) {
    k < |b| && k <= |a| && a[..k] == b[..k] && (k == |a| || a[k] < b[k])
  }

  lemma DecidesHead(a: Name, b: Name, k: nat)
    ensures Decides(a, b, 0) <==> b != [] && (a == [] || a[0] < b[0])
    ensures k > 0 ==>
      (Decides(a, b, k) <==> a != [] && b != [] && a[0] == b[0] && Decides(a[1..], b[1..], k - 1))
  {
    if 0 < k < |b| && k <= |a| {
      assert a[..k] == [a[0]] + a[1..][..k - 1] && b[..k] == [b[0]] + b[1..][..k - 1];
    }
  }

  /** At the first byte in which two names differ, the smaller decides; a name that ends there comes first. */
  lemma {:induction false} LessMeans(a: Name, b: Name)
    ensures Less(a, b) <==> exists k: nat :: Decides(a, b, k)
    decreases |a|
  {
    hide Decides;
    if a != [] && b != [] && a[0] == b[0] {
      LessMeans(a[1..], b[1..]);
      if Less(a[1..], b[1..]) {
        var k: nat :| Decides(a[1..], b[1..], k);
        DecidesHead(a, b, k + 1);
        assert Decides(a, b, k + 1);
      }
    } else {
      DecidesHead(a, b, 0);
    }
    forall k: nat | Decides(a, b, k) ensures Less(a, b) {
      DecidesHead(a, b, k);
    }
  }

  datatype Ranked = Ranked(distance: nat, name: Name)

  /** The comparator of the sort: distance first, then the name's bytes. */
  predicate Before(x: Ranked, y: Ranked) {
    x.distance < y.distance || (x.distance == y.distance && Less(x.name, y.name))
  }

  lemma BeforeTotal(x: Ranked, y: Ranked)
    ensures !(Before(x, y) && Before(y, x))
    ensures x == y || Before(x, y) || Before(y, x)
    ensures !Before(x, x)
  {
    LessTotal(x.name, y.name);
    LessTotal(x.name, x.name);
  }

  lemma BeforeTransitive(x: Ranked, y: Ranked, z: Ranked)
    requires x == y || Before(x, y)
    requires y == z || Before(y, z)
    ensures x == z || Before(x, z)
    ensures Before(x, y) || Before(y, z) ==> Before(x, z)
  {
    if Before(x, y) && Before(y, z) && x.distance == z.distance {
      LessTransitive(x.name, y.name, z.name);
    }
  }

  // ----- Sort, dedup -----

  /** Ascending, equal entries allowed. */
  predicate Sorted(s: seq<Ranked>) {
    |s| >= 2 ==> (s[0] == s[1] || Before(s[0], s[1])) && Sorted(s[1..])
  }

  /** Ascending, no two entries equal. */
  predicate StrictlySorted(s: seq<Ranked>) {
    |s| >= 2 ==> Before(s[0], s[1]) && StrictlySorted(s[1..])
  }

  /** `sort_unstable_by`: the library sort, as insertion. */
  function Inserted(e: Ranked, s: seq<Ranked>): seq<Ranked> {
    if s == [] || !Before(s[0], e) then [e] + s else [s[0]] + Inserted(e, s[1..])
  }

  function Sort(s: seq<Ranked>): seq<Ranked> {
    if s == [] then [] else Inserted(s[0], Sort(s[1..]))
  }

  /** `dedup_by` on names: of a stretch of equal names the first survives. */
  function Dedup(s: seq<Ranked>): seq<Ranked>
    decreases |s|
  {
    if |s| <= 1 then s
    else if s[0].name == s[1].name then Dedup([s[0]] + s[2..])
    else [s[0]] + Dedup(s[1..])
  }

  lemma InsertedSorts(e: Ranked, s: seq<Ranked>)
    requires Sorted(s)
    ensures Sorted(Inserted(e, s)) && multiset(Inserted(e, s)) == multiset(s) + multiset{e}
  {
    hide Sorted, Inserted;
    InsertedOrdered(e, s);
    InsertedHolds(e, s);
  }

  lemma {:induction false} InsertedOrdered(e: Ranked, s: seq<Ranked>)
    requires Sorted(s)
    ensures Sorted(Inserted(e, s))
    ensures Inserted(e, s)[0] == e || (s != [] && Inserted(e, s)[0] == s[0])
  {
    hide Before, Sorted;
    if s != [] && Before(s[0], e) {
      SortedTail(s);
      InsertedOrdered(e, s[1..]);
      SortedCons(s[0], Inserted(e, s[1..]));
    } else {
      if s != [] {
        BeforeTotal(s[0], e);
      }
      SortedCons(e, s);
    }
  }

  lemma {:induction false} InsertedHolds(e: Ranked, s: seq<Ranked>)
    ensures multiset(Inserted(e, s)) == multiset(s) + multiset{e}
  {
    hide Before;
    if s != [] && Before(s[0], e) {
      InsertedHolds(e, s[1..]);
      assert s == [s[0]] + s[1..];
    }
  }

  lemma SortedCons(first: Ranked, s: seq<Ranked>)
    requires Sorted(s) && (s != [] ==> first == s[0] || Before(first, s[0]))
    ensures Sorted([first] + s)
  {
    hide Before;
    assert ([first] + s)[1..] == s;
  }

  lemma SortedTail(s: seq<Ranked>)
    requires s != [] && Sorted(s)
    ensures Sorted(s[1..]) && (|s| >= 2 ==> s[0] == s[1] || Before(s[0], s[1]))
  {
    hide Before;
  }

  lemma {:induction false} SortSorts(s: seq<Ranked>)
    ensures Sorted(Sort(s)) && multiset(Sort(s)) == multiset(s)
  {
    if s != [] {
      SortSorts(s[1..]);
      InsertedSorts(s[0], Sort(s[1..]));
      assert s == [s[0]] + s[1..];
    }
  }

  /** Every entry carries the distance of its own name, so equal names are equal entries. */
  ghost predicate Functional(s: seq<Ranked>, distance: Name -> nat) {
    forall i :: 0 <= i < |s| ==> s[i].distance == distance(s[i].name)
  }

  /** On a sorted list the dedup of neighbours removes every duplicate and nothing else. */
  lemma {:induction false} DedupSorts(s: seq<Ranked>, distance: Name -> nat)
    requires Sorted(s) && Functional(s, distance)
    ensures StrictlySorted(Dedup(s))
    ensures forall e :: e in Dedup(s) <==> e in s
    ensures s != [] ==> Dedup(s) != [] && Dedup(s)[0] == s[0]
    decreases |s|
  {
    if |s| >= 2 {
      assert s == [s[0]] + s[1..] == [s[0], s[1]] + s[2..];
      if s[0].name == s[1].name {
        assert s[0] == s[1];
        var t := [s[0]] + s[2..];
        assert t == s[1..];
        DedupSorts(t, distance);
      } else {
        DedupSorts(s[1..], distance);
        assert ([s[0]] + Dedup(s[1..]))[1..] == Dedup(s[1..]);
      }
    }
  }

  lemma {:induction false} StrictlySortedApart(s: seq<Ranked>, i: nat, j: nat)
    requires StrictlySorted(s) && i < j < |s|
    ensures Before(s[i], s[j])
    decreases |s|
  {
    if i > 0 {
      StrictlySortedApart(s[1..], i - 1, j - 1);
    } else if j > 1 {
      StrictlySortedApart(s[1..], 0, j - 1);
      BeforeTransitive(s[0], s[1], s[j]);
    }
  }

  // ----- The best k -----

  /** `top` is the ascending list of the first `k` names of `pool` in rank order. */
  ghost predicate IsTop(top: seq<Ranked>, pool: set<Name>, k: nat, distance: Name -> nat) {
    && Functional(top, distance)
    && (forall i, j :: 0 <= i < j < |top| ==> Before(top[i], top[j]))
    && (forall i :: 0 <= i < |top| ==> top[i].name in pool)
    && |top| <= k
    && (forall n, i :: n in pool && Ranked(distance(n), n) !in top && 0 <= i < |top| ==>
          Before(top[i], Ranked(distance(n), n)))
    && (|top| < k ==> forall n :: n in pool ==> Ranked(distance(n), n) in top)
  }

  /** There is only one such list, so the order in which names were discovered does not matter. */
  lemma {:induction false} TopIsUnique(a: seq<Ranked>, b: seq<Ranked>, pool: set<Name>, k: nat, distance: Name -> nat)
    requires IsTop(a, pool, k, distance) && IsTop(b, pool, k, distance)
    ensures a == b
  {
    forall i | 0 <= i < |a| && i < |b| ensures a[i] == b[i] {
      SamePlace(a, b, pool, k, distance, i);
    }
    if |a| < |b| {
      NoShorter(a, b, pool, k, distance);
    } else if |b| < |a| {
      NoShorter(b, a, pool, k, distance);
    }
  }

  lemma Distinct(s: seq<Ranked>, i: nat)
    requires i < |s| && forall j :: 0 <= j < i ==> Before(s[j], s[i])
    ensures forall j :: 0 <= j < i ==> s[j] != s[i]
  {
    BeforeTotal(s[i], s[i]);
  }

  lemma NoShorter(a: seq<Ranked>, b: seq<Ranked>, pool: set<Name>, k: nat, distance: Name -> nat)
    requires IsTop(a, pool, k, distance) && IsTop(b, pool, k, distance)
    requires forall i :: 0 <= i < |a| && i < |b| ==> a[i] == b[i]
    ensures |b| <= |a|
  {
    if |a| < |b| {
      assert b[|a|] == Ranked(distance(b[|a|].name), b[|a|].name);
      Distinct(b, |a|);
    }
  }

  /** Two lists that agree before `i` agree at `i`: each would otherwise miss the other's entry. */
  lemma {:induction false} SamePlace(a: seq<Ranked>, b: seq<Ranked>, pool: set<Name>, k: nat, distance: Name -> nat, i: nat)
    requires IsTop(a, pool, k, distance) && IsTop(b, pool, k, distance)
    requires i < |a| && i < |b|
    ensures a[i] == b[i]
  {
    forall j | 0 <= j < i ensures a[j] == b[j] {
      SamePlace(a, b, pool, k, distance, j);
    }
    NotAfter(a, b, pool, k, distance, i);
    NotAfter(b, a, pool, k, distance, i);
    BeforeTotal(a[i], b[i]);
  }

  lemma NotAfter(a: seq<Ranked>, b: seq<Ranked>, pool: set<Name>, k: nat, distance: Name -> nat, i: nat)
    requires IsTop(a, pool, k, distance) && IsTop(b, pool, k, distance)
    requires i < |a| && i < |b| && forall j :: 0 <= j < i ==> a[j] == b[j]
    ensures !Before(b[i], a[i])
  {
    var e := b[i];
    assert e == Ranked(distance(e.name), e.name) && e.name in pool;
    BeforeTotal(a[i], e);
    BeforeTotal(e, e);
    Distinct(b, i);
    if e in a {
      var j :| 0 <= j < |a| && a[j] == e;
      if j > i {
        assert Before(a[i], a[j]);
      }
    } else {
      assert Before(a[i], e);
    }
  }

  lemma AllApart(s: seq<Ranked>)
    requires StrictlySorted(s)
    ensures forall i, j :: 0 <= i < j < |s| ==> Before(s[i], s[j])
  {
    forall i, j | 0 <= i < j < |s| ensures Before(s[i], s[j]) {
      StrictlySortedApart(s, i, j);
    }
  }

  lemma TruncateKeepsTop(s: seq<Ranked>, pool: set<Name>, k: nat, distance: Name -> nat)
    requires StrictlySorted(s) && Functional(s, distance)
    requires forall e :: e in s ==> e.name in pool
    requires forall n :: n in pool ==> Ranked(distance(n), n) in s
    ensures IsTop(if |s| <= k then s else s[..k], pool, k, distance)
  {
    hide StrictlySorted, Before;
    var top := if |s| <= k then s else s[..k];
    assert forall i :: 0 <= i < |top| ==> top[i] == s[i];
    AllApart(s);
    forall n, i | n in pool && Ranked(distance(n), n) !in top && 0 <= i < |top|
      ensures Before(top[i], Ranked(distance(n), n))
    {
      var j :| 0 <= j < |s| && s[j] == Ranked(distance(n), n);
      assert j >= |top|;
    }
  }

  // ----- The suggestions -----

  predicate Eligible(name: Name, forbidden: set<Name>) {
    name != [] && Lowercase(name) !in forbidden
  }

  ghost function Pool(discovered: seq<Name>, forbidden: set<Name>): set<Name> {
    set n | n in discovered && Eligible(n, forbidden)
  }

  /** Which names compete: those discovered that are not empty and whose lowercase form is not forbidden, so
      that the case of a spelling never matters. */
  lemma PoolMeans(discovered: seq<Name>, forbidden: set<Name>, a: Name, b: Name)
    ensures a in Pool(discovered, forbidden) <==> a in discovered && a != [] && Lowercase(a) !in forbidden
    ensures SameButCase(a, b) && a in discovered && b in discovered ==>
      (a in Pool(discovered, forbidden) <==> b in Pool(discovered, forbidden))
  {
    hide Lowercase;
    LowercaseMeans(a, b);
  }

  /** The filter and the distances. */
  method Rank(discovered: seq<Name>, forbidden: set<Name>, comparison: Name) returns (ranked: seq<Ranked>)
    ensures forall e :: e in ranked ==>
      e.name in Pool(discovered, forbidden) && e.distance == Dist(comparison, Lowercase(e.name))
    ensures forall n :: n in Pool(discovered, forbidden) ==> Ranked(Dist(comparison, Lowercase(n)), n) in ranked
  {
    hide Dist;
    ranked := [];
    for i := 0 to |discovered|
      invariant forall e :: e in ranked ==>
        e.name in Pool(discovered, forbidden) && e.distance == Dist(comparison, Lowercase(e.name))
      invariant forall n :: n in discovered[..i] && Eligible(n, forbidden) ==>
        Ranked(Dist(comparison, Lowercase(n)), n) in ranked
    {
      var name := discovered[i];
      assert discovered[..i + 1] == discovered[..i] + [name];
      if Eligible(name, forbidden) {
        var d := CaseFoldedDistance(comparison, name);
        ranked := ranked + [Ranked(d, name)];
      }
    }
    assert discovered[..|discovered|] == discovered;
  }

  /** Rank, sort, dedup and truncate, up to the registry queries. */
  method Finalists(discovered: seq<Name>, forbidden: set<Name>, comparison: Name) returns (ranked: seq<Ranked>)
    ensures IsTop(ranked, Pool(discovered, forbidden), REGISTERED_MODEL_SUGGESTION_LIMIT,
                  n => Dist(comparison, Lowercase(n)))
  {
    hide Dist, Sort, Dedup, Sorted, StrictlySorted, IsTop;
    ghost var distance: Name -> nat := n => Dist(comparison, Lowercase(n));
    ghost var pool := Pool(discovered, forbidden);
    ranked := Rank(discovered, forbidden, comparison);
    SortSorts(ranked);
    SameMembers(Sort(ranked), ranked);
    ranked := Sort(ranked);
    assert forall i :: 0 <= i < |ranked| ==> ranked[i] in ranked;
    DedupSorts(ranked, distance);
    ranked := Dedup(ranked);
    assert forall i :: 0 <= i < |ranked| ==> ranked[i] in ranked;
    TruncateKeepsTop(ranked, pool, REGISTERED_MODEL_SUGGESTION_LIMIT, distance);
    ranked := if |ranked| <= REGISTERED_MODEL_SUGGESTION_LIMIT then ranked else ranked[..REGISTERED_MODEL_SUGGESTION_LIMIT];
  }

  lemma SameMembers(a: seq<Ranked>, b: seq<Ranked>)
    requires multiset(a) == multiset(b)
    ensures forall e :: e in a <==> e in b
  {
    forall e ensures e in a <==> e in b {
      assert e in a <==> e in multiset(a);
      assert e in b <==> e in multiset(b);
    }
  }

  /** The nearest names: the distances of `top` ascend, equal ones in the order of their names' bytes, and no
      other name of the pool is nearer than one that is listed, or as near and before it in that order. */
  lemma {:induction false} TopIsNearest(top: seq<Ranked>, pool: set<Name>, k: nat, distance: Name -> nat)
    requires IsTop(top, pool, k, distance)
    ensures forall i, j :: 0 <= i < j < |top| ==>
      top[i].distance < top[j].distance || (top[i].distance == top[j].distance && Less(top[i].name, top[j].name))
    ensures forall n, i :: n in pool && 0 <= i < |top| && (forall j :: 0 <= j < |top| ==> top[j].name != n) ==>
      top[i].distance < distance(n) || (top[i].distance == distance(n) && Less(top[i].name, n))
  {
    hide Less;
    forall n, i | n in pool && 0 <= i < |top| && (forall j :: 0 <= j < |top| ==> top[j].name != n)
      ensures top[i].distance < distance(n) || (top[i].distance == distance(n) && Less(top[i].name, n))
    {
      assert Ranked(distance(n), n) !in top;
      assert Before(top[i], Ranked(distance(n), n));
    }
  }

  /** `kept` are the entries of `top` that are registered, in the same order. */
  ghost predicate Keeps(kept: seq<Ranked>, top: seq<Ranked>, registered: Name -> bool) {
    && (forall e :: e in kept <==> e in top && registered(e.name))
    && (forall i, j :: 0 <= i < j < |kept| ==> Before(kept[i], kept[j]))
  }

  lemma TopAscends(top: seq<Ranked>, pool: set<Name>, k: nat, distance: Name -> nat)
    requires IsTop(top, pool, k, distance)
    ensures forall i, j :: 0 <= i < j < |top| ==> Before(top[i], top[j])
  {
  }

  lemma KeepsNothing(registered: Name -> bool)
    ensures Keeps([], [], registered)
  {
  }

  lemma KeepsNext(kept: seq<Ranked>, top: seq<Ranked>, e: Ranked, registered: Name -> bool)
    requires Keeps(kept, top, registered) && forall i :: 0 <= i < |top| ==> Before(top[i], e)
    ensures Keeps(if registered(e.name) then kept + [e] else kept, top + [e], registered)
  {
    hide Before;
    forall k | 0 <= k < |kept| ensures Before(kept[k], e) {
      assert kept[k] in kept;
    }
  }

  function NamesOf(s: seq<Ranked>): seq<Name> {
    seq(|s|, i requires 0 <= i < |s| => s[i].name)
  }

  /** `registered_model_suggestions`; `registered` stands for a registry answer whose hash and order book
      are the expected ones. */
  method RegisteredModelSuggestions(discovered: seq<Name>, forbidden: set<Name>, comparison: Name, registered: Name -> bool)
    returns (suggestions: seq<Name>)
    ensures exists top, kept ::
      && IsTop(top, Pool(discovered, forbidden), 5, n => Dist(comparison, Lowercase(n)))
      && Keeps(kept, top, registered) && suggestions == NamesOf(kept)
  {
    hide Before, Dist, Keeps, IsTop;
    var ranked := Finalists(discovered, forbidden, comparison);
    TopAscends(ranked, Pool(discovered, forbidden), REGISTERED_MODEL_SUGGESTION_LIMIT, n => Dist(comparison, Lowercase(n)));
    ghost var kept: seq<Ranked> := [];
    KeepsNothing(registered);
    assert ranked[..0] == [];
    suggestions := [];
    for i := 0 to |ranked|
      invariant Keeps(kept, ranked[..i], registered) && suggestions == NamesOf(kept)
    {
      assert ranked[..i + 1] == ranked[..i] + [ranked[i]];
      KeepsNext(kept, ranked[..i], ranked[i], registered);
      if registered(ranked[i].name) {
        kept := kept + [ranked[i]];
        suggestions := suggestions + [ranked[i].name];
      }
    }
    assert ranked[..|ranked|] == ranked;
  }
}
