/** Levenshtein distance as the length of the shortest edit script, and the two-row loop of
    `ascii_case_folded_levenshtein_distance` that computes it. */
module EditDistance {

  type Byte = bv8

  function Min(a: nat, b: nat): nat {
    if a <= b then a else b
  }

  function Init<T>(s: seq<T>): seq<T>
    requires s != []
  {
    s[..|s| - 1]
  }

  function Last<T>(s: seq<T>): T
    requires s != []
  {
    s[|s| - 1]
  }

  // ----- Edit scripts -----

  /** An edit script, its last edit outermost. */
  datatype Script =
    | Done
    | Keep(before: Script)
    | Replace(to: Byte, before: Script)
    | Insert(inserted: Byte, before: Script)
    | Delete(before: Script)

  function Cost(s: Script): nat {
    match s
    case Done => 0
    case Keep(r) => Cost(r)
    case Replace(_, r) => 1 + Cost(r)
    case Insert(_, r) => 1 + Cost(r)
    case Delete(r) => 1 + Cost(r)
  }

  /** Whether the script turns `a` into `b`. */
  predicate Turns(s: Script, a: seq<Byte>, b: seq<Byte>) {
    match s
    case Done => a == [] && b == []
    case Keep(r) => a != [] && b != [] && Last(a) == Last(b) && Turns(r, Init(a), Init(b))
    case Replace(y, r) => a != [] && b != [] && Last(b) == y && Turns(r, Init(a), Init(b))
    case Insert(y, r) => b != [] && Last(b) == y && Turns(r, a, Init(b))
    case Delete(r) => a != [] && Turns(r, Init(a), b)
  }

  // ----- The distance -----

  function Dist(a: seq<Byte>, b: seq<Byte>): nat
    decreases |a| + |b|
  {
    if a == [] then |b|
    else if b == [] then |a|
    else
      var diagonal := Dist(Init(a), Init(b)) + if Last(a) == Last(b) then 0 else 1;
      Min(diagonal, 1 + Min(Dist(Init(a), b), Dist(a, Init(b))))
  }

  lemma {:induction false} ScriptCostsAtLeast(s: Script, a: seq<Byte>, b: seq<Byte>)
    requires Turns(s, a, b)
    ensures Dist(a, b) <= Cost(s)
    decreases s
  {
    match s
    case Done =>
    case Keep(r) => ScriptCostsAtLeast(r, Init(a), Init(b));
    case Replace(_, r) => ScriptCostsAtLeast(r, Init(a), Init(b));
    case Insert(_, r) => ScriptCostsAtLeast(r, a, Init(b));
    case Delete(r) => ScriptCostsAtLeast(r, Init(a), b);
  }

  lemma {:induction false} ShortestScript(a: seq<Byte>, b: seq<Byte>) returns (s: Script)
    ensures Turns(s, a, b) && Cost(s) == Dist(a, b)
    decreases |a| + |b|
  {
    if a == [] && b == [] {
      s := Done;
    } else if b == [] || (a != [] && Dist(a, b) == 1 + Dist(Init(a), b)) {
      var r := ShortestScript(Init(a), b);
      s := Delete(r);
    } else if a == [] || Dist(a, b) == 1 + Dist(a, Init(b)) {
      var r := ShortestScript(a, Init(b));
      s := Insert(Last(b), r);
    } else {
      var r := ShortestScript(Init(a), Init(b));
      s := if Last(a) == Last(b) then Keep(r) else Replace(Last(b), r);
    }
  }

  /** `Dist` is the cost of the cheapest script, no more and no less. */
  lemma DistIsShortest(a: seq<Byte>, b: seq<Byte>, n: nat)
    ensures n == Dist(a, b) <==>
      && (exists s :: Turns(s, a, b) && Cost(s) == n)
      && (forall s :: Turns(s, a, b) ==> n <= Cost(s))
  {
    var best := ShortestScript(a, b);
    forall s | Turns(s, a, b) ensures Dist(a, b) <= Cost(s) {
      ScriptCostsAtLeast(s, a, b);
    }
  }

  // ----- A metric -----

  lemma {:induction false} Symmetric(a: seq<Byte>, b: seq<Byte>)
    ensures Dist(a, b) == Dist(b, a)
    decreases |a| + |b|
  {
    if a != [] && b != [] {
      Symmetric(Init(a), Init(b));
      Symmetric(Init(a), b);
      Symmetric(a, Init(b));
    }
  }

  lemma {:induction false} ZeroIsEqual(a: seq<Byte>, b: seq<Byte>)
    ensures Dist(a, b) == 0 <==> a == b
    decreases |a| + |b|
  {
    if a != [] && b != [] {
      ZeroIsEqual(Init(a), Init(b));
      assert a == Init(a) + [Last(a)] && b == Init(b) + [Last(b)];
    }
  }

  /** The script that does `s` and then `t`. */
  function Then(s: Script, t: Script): Script
    decreases s, t
  {
    match t
    case Insert(y, t') => Insert(y, Then(s, t'))
    case Done => (match s case Delete(s') => Delete(Then(s', t)) case _ => Done)
    case Keep(t') =>
      (match s
       case Delete(s') => Delete(Then(s', t))
       case Keep(s') => Keep(Then(s', t'))
       case Replace(y, s') => Replace(y, Then(s', t'))
       case Insert(y, s') => Insert(y, Then(s', t'))
       case Done => Done)
    case Replace(z, t') =>
      (match s
       case Delete(s') => Delete(Then(s', t))
       case Keep(s') => Replace(z, Then(s', t'))
       case Replace(_, s') => Replace(z, Then(s', t'))
       case Insert(_, s') => Insert(z, Then(s', t'))
       case Done => Done)
    case Delete(t') =>
      (match s
       case Delete(s') => Delete(Then(s', t))
       case Keep(s') => Delete(Then(s', t'))
       case Replace(_, s') => Delete(Then(s', t'))
       case Insert(_, s') => Then(s', t')
       case Done => Done)
  }

  lemma {:induction false} ThenWorks(s: Script, t: Script, a: seq<Byte>, b: seq<Byte>, c: seq<Byte>)
    requires Turns(s, a, b) && Turns(t, b, c)
    ensures Turns(Then(s, t), a, c) && Cost(Then(s, t)) <= Cost(s) + Cost(t)
    decreases s, t
  {
    if t.Insert? {
      ThenWorks(s, t.before, a, b, Init(c));
    } else if s.Delete? {
      ThenWorks(s.before, t, Init(a), b, c);
    } else if !t.Done? && !s.Done? {
      ThenWorks(s.before, t.before, if s.Insert? then a else Init(a), Init(b), if t.Delete? then c else Init(c));
    }
  }

  lemma {:induction false} Triangle(a: seq<Byte>, b: seq<Byte>, c: seq<Byte>)
    ensures Dist(a, c) <= Dist(a, b) + Dist(b, c)
  {
    var s := ShortestScript(a, b);
    var t := ShortestScript(b, c);
    ThenWorks(s, t, a, b, c);
    ScriptCostsAtLeast(Then(s, t), a, c);
  }

  // ----- The shortcut -----

  /** Neighbouring cells differ by at most one ... */
  lemma {:induction false} NeighbourBelow(a: seq<Byte>, b: seq<Byte>)
    requires a != []
    ensures Dist(Init(a), b) <= Dist(a, b) + 1
    decreases |b|
  {
    if b != [] {
      NeighbourBelow(a, Init(b));
    }
  }

  /** ... so on equal bytes the diagonal alone is the minimum. */
  lemma EqualBytesTakeDiagonal(a: seq<Byte>, b: seq<Byte>)
    requires a != [] && b != [] && Last(a) == Last(b)
    ensures Dist(a, b) == Dist(Init(a), Init(b))
  {
    NeighbourBelow(a, Init(b));
    NeighbourBelow(b, Init(a));
    Symmetric(Init(a), Init(b));
    Symmetric(Init(a), b);
  }

  // ----- The two-row loop -----

  function Lower(c: Byte): Byte {
    if 65 <= c <= 90 then c + 32 else c
  }

  /** `to_ascii_lowercase`. */
  function Lowercase(s: seq<Byte>): (r: seq<Byte>)
    ensures |r| == |s|
  {
    seq(|s|, i requires 0 <= i < |s| => Lower(s[i]))
  }

  predicate IsUpper(c: Byte) {
    'A' as int <= c as int <= 'Z' as int
  }

  /** Two texts that differ in the case of ASCII letters only. */
  ghost predicate SameButCase(a: seq<Byte>, b: seq<Byte>) {
    && |a| == |b|
    && forall i :: 0 <= i < |a| ==>
         a[i] == b[i] || (IsUpper(a[i]) && b[i] as int == a[i] as int + 32) || (IsUpper(b[i]) && a[i] as int == b[i] as int + 32)
  }

  /** Lowercasing leaves no capital, changes nothing but case, and so makes exactly the texts that differ in
      case only equal. */
  lemma {:induction false} LowercaseMeans(a: seq<Byte>, b: seq<Byte>)
    ensures forall i :: 0 <= i < |Lowercase(a)| ==> !IsUpper(Lowercase(a)[i])
    ensures SameButCase(a, Lowercase(a))
    ensures Lowercase(a) == Lowercase(b) <==> SameButCase(a, b)
  {
    forall i | 0 <= i < |a| ensures !IsUpper(Lowercase(a)[i]) && Lowercase(a)[i] == Lower(a[i]) {
      LowerMeans(a[i], a[i]);
    }
    forall i | 0 <= i < |a| && i < |b| ensures Lowercase(a)[i] == Lowercase(b)[i] <==>
      a[i] == b[i] || (IsUpper(a[i]) && b[i] as int == a[i] as int + 32) || (IsUpper(b[i]) && a[i] as int == b[i] as int + 32)
    {
      LowerMeans(a[i], b[i]);
    }
    if |a| == |b| && SameButCase(a, b) {
      assert Lowercase(a) == Lowercase(b);
    }
  }

  lemma LowerMeans(c: Byte, d: Byte)
    ensures !IsUpper(Lower(c)) && (Lower(c) == c || (IsUpper(c) && Lower(c) as int == c as int + 32))
    ensures Lower(c) == Lower(d) <==>
      c == d || (IsUpper(c) && d as int == c as int + 32) || (IsUpper(d) && c as int == d as int + 32)
  {
  }

  /** The next cell of the row of `a[..i + 1]`. */
  lemma Cell(a: seq<Byte>, b: seq<Byte>, i: nat, j: nat)
    requires i < |a| && j < |b|
    ensures Dist(a[..i + 1], b[..j + 1]) ==
      if a[i] == b[j] then Dist(a[..i], b[..j])
      else 1 + Min(Min(Dist(a[..i], b[..j]), Dist(a[..i], b[..j + 1])), Dist(a[..i + 1], b[..j]))
  {
    var p, q := a[..i + 1], b[..j + 1];
    assert Init(p) == a[..i] && Init(q) == b[..j];
    if a[i] == b[j] {
      EqualBytesTakeDiagonal(p, q);
    }
  }

  /** `ascii_case_folded_levenshtein_distance`: only the right side is folded here. */
  method CaseFoldedDistance(left: seq<Byte>, rightRaw: seq<Byte>) returns (distance: nat)
    ensures distance == Dist(left, Lowercase(rightRaw))
  {
    hide Dist;
    var right := Lowercase(rightRaw);
    var previous := new nat[|right| + 1](i => i);
    var current := new nat[|right| + 1](_ => 0);
    FirstRow(right);
    assert left[..0] == [];
    for leftIndex := 0 to |left|
      invariant fresh(previous) && fresh(current)
      invariant previous != current && previous.Length == current.Length == |right| + 1
      invariant forall j :: 0 <= j <= |right| ==> previous[j] == Dist(left[..leftIndex], right[..j])
    {
      current[0] := leftIndex + 1;
      FirstColumn(left[..leftIndex + 1], right);
      for rightIndex := 0 to |right|
        invariant forall j :: 0 <= j <= |right| ==> previous[j] == Dist(left[..leftIndex], right[..j])
        invariant forall j :: 0 <= j <= rightIndex ==> current[j] == Dist(left[..leftIndex + 1], right[..j])
      {
        Cell(left, right, leftIndex, rightIndex);
        current[rightIndex + 1] :=
          if left[leftIndex] == right[rightIndex] then previous[rightIndex]
          else 1 + Min(Min(previous[rightIndex], previous[rightIndex + 1]), current[rightIndex]);
      }
      previous, current := current, previous;
    }
    assert left[..|left|] == left && right[..|right|] == right;
    distance := previous[|right|];
  }

  lemma FirstRow(b: seq<Byte>)
    ensures forall j :: 0 <= j <= |b| ==> Dist([], b[..j]) == j
  {
  }

  lemma FirstColumn(a: seq<Byte>, b: seq<Byte>)
    ensures Dist(a, b[..0]) == |a|
  {
  }
}
