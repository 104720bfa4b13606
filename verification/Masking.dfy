/** Replacing secrets in a text by a mask, and when no secret is left to read. */
module Masking {
  import opened Text

  const WORD: string := "redacted"
  const REDACTED: string := "<" + WORD + ">"

  // ----- Replacing -----

  /** `str::replace`: leftmost non-overlapping occurrences. */
  function Replace(s: string, from: string, to: string): string
    requires from != ""
    decreases |s|
  {
    if s == "" then ""
    else if from <= s then to + Replace(s[|from|..], from, to)
    else [s[0]] + Replace(s[1..], from, to)
  }

  ghost predicate Maskable(order: seq<string>) {
    forall i :: 0 <= i < |order| ==> order[i] != ""
  }

  function Mask(text: string, order: seq<string>): string {
    if order == [] then text
    else
      var earlier := Mask(text, order[..|order| - 1]);
      var secret := order[|order| - 1];
      if secret == "" then earlier else Replace(earlier, secret, REDACTED)
  }

  /** `mask_exact_secrets`, once the order is fixed. */
  method MaskExactSecrets(text: string, order: seq<string>) returns (masked: string)
    requires Maskable(order)
    ensures masked == Mask(text, order)
  {
    masked := text;
    for i := 0 to |order|
      invariant masked == Mask(text, order[..i])
    {
      assert order[..i + 1][..i] == order[..i];
      masked := Replace(masked, order[i], REDACTED);
    }
    assert order[..|order|] == order;
  }

  lemma {:induction false} ReplaceBySelf(s: string, p: string)
    requires p != ""
    ensures Replace(s, p, p) == s
    decreases |s|
  {
    if s != "" {
      if p <= s {
        ReplaceBySelf(s[|p|..], p);
        assert s == p + s[|p|..];
      } else {
        ReplaceBySelf(s[1..], p);
      }
    }
  }

  lemma {:induction false} ReplaceAbsent(s: string, from: string, to: string)
    requires from != "" && Find(s, from).None?
    ensures Replace(s, from, to) == s
    decreases |s|
  {
    if s != "" {
      ReplaceAbsent(s[1..], from, to);
    }
  }

  /** Up to the first occurrence nothing changes, the occurrence becomes the mask, and the search goes on
      behind it. */
  lemma {:induction false} ReplaceFirst(s: string, from: string, to: string)
    requires from != "" && Find(s, from).Some?
    ensures var n := Find(s, from).value;
      Replace(s, from, to) == s[..n] + to + Replace(s[n + |from|..], from, to)
    decreases |s|
  {
    hide Find, Replace;
    var n := Find(s, from).value;
    if from <= s {
      ReplaceHere(s, from, to);
      assert s[..0] + to == to;
    } else {
      ReplaceLater(s, from, to);
      ReplaceFirst(s[1..], from, to);
      ConsSlices(s, n, |from|);
      ConsAssoc(s[0], s[1..][..n - 1], to, Replace(s[n + |from|..], from, to));
    }
  }

  lemma ReplaceHere(s: string, from: string, to: string)
    requires from != "" && from <= s
    ensures Find(s, from) == Some(0) && Replace(s, from, to) == to + Replace(s[|from|..], from, to)
  {
  }

  lemma ReplaceLater(s: string, from: string, to: string)
    requires from != "" && !(from <= s) && Find(s, from).Some?
    ensures s != "" && Find(s, from).value > 0 && Find(s[1..], from) == Some(Find(s, from).value - 1)
    ensures Replace(s, from, to) == [s[0]] + Replace(s[1..], from, to)
  {
  }

  lemma ConsSlices(s: string, n: nat, width: nat)
    requires 0 < n && n + width <= |s|
    ensures s[1..][n - 1 + width..] == s[n + width..] && [s[0]] + s[1..][..n - 1] == s[..n]
  {
  }

  lemma ConsAssoc(c: char, a: string, b: string, d: string)
    ensures [c] + (a + b + d) == ([c] + a) + b + d
  {
  }

  /** With one secret to mask, its echo between texts that do not hold it is replaced, and only that. */
  lemma EchoIsMasked(a: string, secret: string, b: string)
    requires secret != "" && Find(a + secret + b, secret) == Some(|a|) && Find(b, secret).None?
    ensures Mask(a + secret + b, [secret]) == a + REDACTED + b
  {
    hide Find;
    var text := a + secret + b;
    assert [secret][..0] == [] && Mask(text, []) == text;
    ReplaceFirst(text, secret, REDACTED);
    assert text[..|a|] == a && text[|a| + |secret|..] == b;
    ReplaceAbsent(b, secret, REDACTED);
  }

  /** Text that echoes no secret is left alone. */
  lemma {:induction false} MaskLeavesOtherText(text: string, order: seq<string>)
    requires forall i :: 0 <= i < |order| ==> order[i] != "" && Find(text, order[i]).None?
    ensures Mask(text, order) == text
  {
    if order != [] {
      MaskLeavesOtherText(text, order[..|order| - 1]);
      ReplaceAbsent(text, order[|order| - 1], REDACTED);
    }
  }

  /** Masking the mask itself changes nothing. */
  lemma {:induction false} MaskRedacted(text: string, order: seq<string>)
    requires forall i :: 0 <= i < |order| ==> order[i] == REDACTED
    ensures Mask(text, order) == text
  {
    if order != [] {
      MaskRedacted(text, order[..|order| - 1]);
      ReplaceBySelf(text, REDACTED);
    }
  }

  // ----- Searching in pieces -----

  lemma NoneInSlice(text: string, s: string, lo: nat, hi: nat)
    requires lo <= hi <= |text| && Find(text, s).None?
    ensures Find(text[lo..hi], s).None?
  {
    hide Find;
    var slice := text[lo..hi];
    if Find(slice, s).Some? {
      FindHit(slice, s);
      HitInSlice(text, s, lo, hi, Find(slice, s).value);
      FindIsFirst(text, s, lo + Find(slice, s).value);
    }
  }

  /** An occurrence inside a slice is an occurrence in the text. */
  lemma HitInSlice(text: string, s: string, lo: nat, hi: nat, k: nat)
    requires lo <= hi <= |text| && k <= hi - lo && s <= text[lo..hi][k..]
    ensures s <= text[lo + k..]
  {
    assert text[lo..hi][k..] == text[lo + k..hi];
    assert text[lo + k..hi] == text[lo + k..][..hi - lo - k];
  }

  lemma BeforeFirstIsClean(text: string, s: string, n: nat)
    requires s != "" && Find(text, s) == Some(n)
    ensures Find(text[..n], s).None?
  {
    hide Find;
    if Find(text[..n], s).Some? {
      FindHit(text[..n], s);
      var k := Find(text[..n], s).value;
      assert text[0..n] == text[..n];
      HitInSlice(text, s, 0, n, k);
      FindIsFirst(text, s, k);
    }
  }

  // ----- Where a secret could overlap the mask -----

  /** One of the two texts starts with the other. */
  predicate Comparable(a: string, b: string) {
    a <= b || b <= a
  }

  lemma PrefixesCompare(a: string, b: string, c: string)
    requires a <= c && b <= c
    ensures Comparable(a, b)
  {
  }

  /** A copy of the secret could start inside the mask. */
  predicate StartsInMask(s: string) {
    exists j :: 0 <= j < |REDACTED| && Comparable(s, REDACTED[j..])
  }

  /** Behind its first `m` characters, a copy of the secret could go on in the mask. */
  predicate RunsIntoMask(s: string, m: nat) {
    0 < m < |s| && Comparable(s[m..], REDACTED)
  }

  /** The secret and the mask overlap in some way. */
  predicate Overlaps(s: string) {
    StartsInMask(s) || exists m :: 0 < m < |s| && RunsIntoMask(s, m)
  }

  /** The overlaps that masking this one secret can bring about: the `m` characters in front of an
      occurrence are not part of an earlier one. */
  predicate Resurfaces(s: string) {
    StartsInMask(s) || exists m :: 0 < m < |s| && RunsIntoMask(s, m) && Find(s[..m] + s, s) == Some(m)
  }

  /** A copy of `s` in `before + mask + behind` lies in one of the two texts or overlaps the mask. */
  lemma NoneAcross(before: string, behind: string, s: string)
    requires s != "" && !StartsInMask(s)
    requires Find(before, s).None? && Find(behind, s).None?
    requires forall m :: 0 < m < |s| && m <= |before| && before[|before| - m..] == s[..m] ==> !RunsIntoMask(s, m)
    ensures Find(before + REDACTED + behind, s).None?
  {
    hide Find, StartsInMask, RunsIntoMask;
    var text := before + REDACTED + behind;
    if Find(text, s).Some? {
      FindHit(text, s);
      NotAt(before, behind, s, Find(text, s).value);
    }
  }

  lemma NotAt(before: string, behind: string, s: string, k: nat)
    requires s != "" && !StartsInMask(s)
    requires Find(before, s).None? && Find(behind, s).None?
    requires forall m :: 0 < m < |s| && m <= |before| && before[|before| - m..] == s[..m] ==> !RunsIntoMask(s, m)
    requires k <= |before| + |REDACTED| + |behind|
    ensures !(s <= (before + REDACTED + behind)[k..])
  {
    hide Find, StartsInMask, RunsIntoMask;
    if k >= |before| + |REDACTED| {
      NotBehind(before, behind, s, k);
    } else if k >= |before| {
      NotFromMask(before, behind, s, k);
    } else {
      NotFromFront(before, behind, s, k);
    }
  }

  lemma NotBehind(before: string, behind: string, s: string, k: nat)
    requires Find(behind, s).None? && |before| + |REDACTED| <= k <= |before| + |REDACTED| + |behind|
    ensures !(s <= (before + REDACTED + behind)[k..])
  {
    hide Find;
    var i := k - |before| - |REDACTED|;
    assert (before + REDACTED + behind)[k..] == behind[i..];
    if s <= behind[i..] {
      FindIsFirst(behind, s, i);
    }
  }

  lemma NotFromMask(before: string, behind: string, s: string, k: nat)
    requires !StartsInMask(s) && |before| <= k < |before| + |REDACTED|
    ensures !(s <= (before + REDACTED + behind)[k..])
  {
    var part := REDACTED[k - |before|..];
    assert (before + REDACTED + behind)[k..] == part + behind;
    if s <= part + behind {
      PrefixesCompare(s, part, part + behind);
    }
  }

  lemma NotFromFront(before: string, behind: string, s: string, k: nat)
    requires Find(before, s).None? && k < |before|
    requires forall m :: 0 < m < |s| && m <= |before| && before[|before| - m..] == s[..m] ==> !RunsIntoMask(s, m)
    ensures !(s <= (before + REDACTED + behind)[k..])
  {
    hide Find, RunsIntoMask;
    var front := before[k..];
    FromFront(before, REDACTED + behind, k);
    assert before + REDACTED + behind == before + (REDACTED + behind);
    if |s| <= |front| {
      NotWithin(before, REDACTED + behind, s, k);
    } else {
      NotPast(front, behind, s);
    }
  }

  lemma FromFront(before: string, rest: string, k: nat)
    requires k <= |before|
    ensures (before + rest)[k..] == before[k..] + rest
  {
  }

  lemma NotWithin(before: string, rest: string, s: string, k: nat)
    requires Find(before, s).None? && k + |s| <= |before|
    ensures !(s <= before[k..] + rest)
  {
    hide Find;
    var front := before[k..];
    if s <= front {
      FindIsFirst(before, s, k);
    }
    assert (front + rest)[..|s|] == front[..|s|];
  }

  lemma NotPast(front: string, behind: string, s: string)
    requires 0 < |front| < |s|
    requires front == s[..|front|] ==> !RunsIntoMask(s, |front|)
    ensures !(s <= front + (REDACTED + behind))
  {
    hide RunsIntoMask;
    if s <= front + (REDACTED + behind) {
      PastIsInMask(front, behind, s);
    }
  }

  lemma PastIsInMask(front: string, behind: string, s: string)
    requires 0 < |front| < |s| && s <= front + (REDACTED + behind)
    ensures front == s[..|front|] && RunsIntoMask(s, |front|)
  {
    var rest := REDACTED + behind;
    assert s[|front|..] <= rest;
    PrefixesCompare(s[|front|..], REDACTED, rest);
  }

  // ----- One secret -----

  /** Text in front of the first occurrence that runs into it starts no earlier one. */
  lemma FrontIsFirst(text: string, s: string, n: nat, m: nat)
    requires s != "" && Find(text, s) == Some(n) && 0 < m <= n && m < |s| && text[n - m..n] == s[..m]
    ensures Find(s[..m] + s, s) == Some(m)
  {
    hide Find;
    FindHit(text, s);
    var joined := s[..m] + s;
    assert joined == text[n - m..n + |s|] by {
      assert text[n..n + |s|] == text[n..][..|s|] == s;
      assert text[n - m..n + |s|] == text[n - m..n] + text[n..n + |s|];
    }
    assert joined[m..] == s;
    FindIsFirst(joined, s, m);
    FindHit(joined, s);
    var v := Find(joined, s).value;
    HitInSlice(text, s, n - m, n + |s|, v);
    FindIsFirst(text, s, n - m + v);
  }

  /** Replacing a secret that cannot resurface removes it. */
  lemma {:induction false} ReplaceRemoves(text: string, s: string)
    requires s != "" && !Resurfaces(s)
    ensures Find(Replace(text, s, REDACTED), s).None?
    decreases |text|
  {
    hide Find, Replace, StartsInMask, RunsIntoMask;
    if Find(text, s).None? {
      ReplaceAbsent(text, s, REDACTED);
    } else {
      var n := Find(text, s).value;
      var before, behind := text[..n], Replace(text[n + |s|..], s, REDACTED);
      ReplaceFirst(text, s, REDACTED);
      ReplaceRemoves(text[n + |s|..], s);
      BeforeFirstIsClean(text, s, n);
      forall m | 0 < m < |s| && m <= n && before[n - m..] == s[..m] ensures !RunsIntoMask(s, m) {
        assert text[n - m..n] == before[n - m..];
        FrontIsFirst(text, s, n, m);
      }
      NoneAcross(before, behind, s);
    }
  }

  /** Replacing another secret brings none back. */
  lemma {:induction false} ReplaceKeepsAbsent(text: string, other: string, s: string)
    requires other != "" && s != "" && !Overlaps(s) && Find(text, s).None?
    ensures Find(Replace(text, other, REDACTED), s).None?
    decreases |text|
  {
    hide Find, Replace, StartsInMask, RunsIntoMask;
    if Find(text, other).None? {
      ReplaceAbsent(text, other, REDACTED);
    } else {
      var n := Find(text, other).value;
      var rest := text[n + |other|..];
      ReplaceFirst(text, other, REDACTED);
      assert text[0..n] == text[..n] && text[n + |other|..|text|] == rest;
      NoneInSlice(text, s, 0, n);
      NoneInSlice(text, s, n + |other|, |text|);
      ReplaceKeepsAbsent(rest, other, s);
      NoneAcross(text[..n], Replace(rest, other, REDACTED), s);
    }
  }

  lemma MaskOne(text: string, s: string)
    requires s != ""
    ensures Mask(text, [s]) == Replace(text, s, REDACTED)
  {
    assert [s][..0] == [] && Mask(text, []) == text;
  }

  /** A text in which a resurfacing secret stays readable. */
  lemma ResurfacingText(s: string) returns (text: string)
    requires s != "" && Resurfaces(s)
    ensures Find(Replace(text, s, REDACTED), s).Some?
  {
    hide Find, Replace, Comparable;
    if StartsInMask(s) {
      var j :| 0 <= j < |REDACTED| && Comparable(s, REDACTED[j..]);
      text := ReadFromMask(s, j);
    } else {
      var m :| 0 < m < |s| && RunsIntoMask(s, m) && Find(s[..m] + s, s) == Some(m);
      text := ReadIntoMask(s, m);
    }
  }

  lemma ReadFromMask(s: string, j: nat) returns (text: string)
    requires s != "" && j < |REDACTED| && Comparable(s, REDACTED[j..])
    ensures Find(Replace(text, s, REDACTED), s).Some?
  {
    hide Find, Replace;
    var part := REDACTED[j..];
    var tail := if s <= part then "" else s[|part|..];
    assert s <= part + tail;
    text := "" + s + tail;
    FindSelf(s);
    assert "" + s == s;
    ReplaceLeading("", s, tail);
    ReadBehind("", tail, s, j);
  }

  lemma ReadBehind(before: string, tail: string, s: string, j: nat)
    requires j < |REDACTED| && s <= REDACTED[j..] + tail
    ensures Find(before + REDACTED + tail, s).Some?
  {
    hide Find;
    var out := before + REDACTED + tail;
    assert out[|before| + j..] == REDACTED[j..] + tail;
    FindIsFirst(out, s, |before| + j);
  }

  lemma ReadIntoMask(s: string, m: nat) returns (text: string)
    requires RunsIntoMask(s, m) && Find(s[..m] + s, s) == Some(m)
    ensures Find(Replace(text, s, REDACTED), s).Some?
  {
    hide Find, Replace;
    var tail := Missing(s, m);
    text := s[..m] + s + tail;
    ReplaceLeading(s[..m], s, tail);
    ReadAcross(s, m);
  }

  /** What must follow the mask for the secret to be complete. */
  function Missing(s: string, m: nat): (tail: string)
    requires 0 < m <= |s| && Comparable(s[m..], REDACTED)
    ensures |tail| < |s|
  {
    if s[m..] <= REDACTED then "" else s[m..][|REDACTED|..]
  }

  lemma ReadAcross(s: string, m: nat)
    requires RunsIntoMask(s, m)
    ensures Find(s[..m] + REDACTED + Missing(s, m), s).Some?
  {
    hide Find, Missing;
    var tail := Missing(s, m);
    var out := s[..m] + REDACTED + tail;
    MissingCompletes(s, m);
    assert out[0..] == s[..m] + (REDACTED + tail);
    PrefixBehind(s[..m], s[m..], REDACTED + tail);
    assert s == s[..m] + s[m..];
    FindIsFirst(out, s, 0);
  }

  lemma MissingCompletes(s: string, m: nat)
    requires 0 < m <= |s| && Comparable(s[m..], REDACTED)
    ensures s[m..] <= REDACTED + Missing(s, m)
  {
  }

  lemma PrefixBehind(a: string, b: string, c: string)
    requires b <= c
    ensures a + b <= a + c
  {
  }

  lemma FindSelf(s: string)
    ensures Find(s, s) == Some(0)
  {
  }

  /** An occurrence between `before` and a shorter text is replaced, and nothing else. */
  lemma ReplaceLeading(before: string, s: string, tail: string)
    requires s != "" && |tail| < |s| && Find(before + s, s) == Some(|before|)
    ensures Replace(before + s + tail, s, REDACTED) == before + REDACTED + tail
  {
    hide Find, Replace;
    var text := before + s + tail;
    FindExtends(before + s, s, tail);
    ReplaceFirst(text, s, REDACTED);
    assert text[..|before|] == before && text[|before| + |s|..] == tail;
    ShorterHoldsNone(tail, s);
    ReplaceAbsent(tail, s, REDACTED);
  }

  lemma ShorterHoldsNone(text: string, s: string)
    requires |text| < |s|
    ensures Find(text, s).None?
  {
  }

  /** A single secret is hidden in every text exactly when it cannot resurface, which depends on the
      secret alone. */
  lemma OneSecretIsHidden(s: string)
    requires s != ""
    ensures (forall text :: Find(Mask(text, [s]), s).None?) <==> !Resurfaces(s)
  {
    hide Find, Mask, Replace, Resurfaces;
    if Resurfaces(s) {
      var text := ResurfacingText(s);
      MaskOne(text, s);
    } else {
      forall text ensures Find(Mask(text, [s]), s).None? {
        MaskOne(text, s);
        ReplaceRemoves(text, s);
      }
    }
  }

  /** Such a secret, just long enough to be masked: the word in the mask. */
  lemma MaskWordStaysReadable()
    ensures Utf8Len(WORD) == 8 && Resurfaces(WORD)
    ensures Find(Mask(WORD, [WORD]), WORD).Some?
  {
    hide Find, Mask, Resurfaces, Utf8Len;
    Utf8LenAscii(WORD);
    WordIsInMask(1);
    assert WORD[0..] == WORD;
    PartOfMaskStaysReadable(WORD, 1);
  }

  lemma PartOfMaskStaysReadable(s: string, j: nat)
    requires s != "" && 0 <= j < |REDACTED| && s <= REDACTED[j..]
    ensures Resurfaces(s) && Find(Mask(s, [s]), s).Some?
  {
    hide Find, Replace, Mask;
    FindSelf(s);
    assert "" + s == s;
    ReplaceLeading("", s, "");
    assert "" + s + "" == s && "" + REDACTED + "" == REDACTED;
    MaskOne(s, s);
    FindIsFirst(REDACTED, s, j);
    assert Comparable(s, REDACTED[j..]);
  }

  // ----- Many secrets -----

  /** Whatever other secrets are masked with it, in whatever order, a secret that does not overlap the mask
      is not left anywhere in the text. */
  lemma {:induction false} MaskHoldsNoSecret(text: string, order: seq<string>, i: nat)
    requires Maskable(order) && i < |order| && !Overlaps(order[i])
    ensures Find(Mask(text, order), order[i]).None?
  {
    hide Find, Replace, StartsInMask, RunsIntoMask;
    var last := |order| - 1;
    var earlier := Mask(text, order[..last]);
    if i == last {
      ReplaceRemoves(earlier, order[i]);
    } else {
      MaskHoldsNoSecret(text, order[..last], i);
      ReplaceKeepsAbsent(earlier, order[last], order[i]);
    }
  }

  /** A character that is none of the three. */
  function Other(a: char, b: char, c: char): (d: char)
    ensures d != a && d != b && d != c
  {
    if 'A' !in [a, b, c] then 'A' else if 'B' !in [a, b, c] then 'B' else if 'C' !in [a, b, c] then 'C' else 'D'
  }

  /** Between texts shorter than `s`, a second secret of one character, not shorter than `s`, hides none. */
  lemma OtherHidesNone(x: string, t: string, y: string, s: string, d: char)
    requires s != "" && |x| < |s| && |y| < |s| && |t| >= |s|
    requires forall i :: 0 <= i < |t| ==> t[i] == d
    requires s[0] != d && s[|s| - 1] != d
    ensures Find(x + t + y, s).None?
  {
    hide Find;
    var text := x + t + y;
    if Find(text, s).Some? {
      FindHit(text, s);
      NotAround(x, t, y, s, d, Find(text, s).value);
    }
  }

  lemma NotAround(x: string, t: string, y: string, s: string, d: char, k: nat)
    requires s != "" && |x| < |s| && |y| < |s| && |t| >= |s|
    requires forall i :: 0 <= i < |t| ==> t[i] == d
    requires s[0] != d && s[|s| - 1] != d && k <= |x| + |t| + |y|
    ensures !(s <= (x + t + y)[k..])
  {
    var text, e := x + t + y, k + |s| - 1;
    if k < |x| {
      assert text[k..][|s| - 1] == text[e] == t[e - |x|];
    } else if k < |x| + |t| {
      assert text[k..][0] == text[k] == t[k - |x|];
    }
  }

  lemma OtherIsFirst(x: string, t: string, d: char)
    requires forall i :: 0 <= i < |t| ==> t[i] == d
    requires x != "" && x[|x| - 1] != d && |x| <= |t|
    ensures Find(x + t, t) == Some(|x|)
  {
    hide Find;
    var text := x + t;
    assert text[|x|..] == t;
    FindIsFirst(text, t, |x|);
    FindHit(text, t);
    var v := Find(text, t).value;
    if v < |x| {
      NotBefore(x, t, d, v);
    }
  }

  lemma NotBefore(x: string, t: string, d: char, v: nat)
    requires forall i :: 0 <= i < |t| ==> t[i] == d
    requires x != "" && x[|x| - 1] != d && |x| <= |t| && v < |x|
    ensures !(t <= (x + t)[v..])
  {
    var i := |x| - 1 - v;
    assert (x + t)[v..][i] == x[|x| - 1] && t[i] == d;
  }

  /** A second secret as long as the first, masked after it, that leaves the first readable. */
  lemma ShowsThroughOther(s: string, m: nat) returns (text: string, t: string)
    requires RunsIntoMask(s, m)
    ensures t != "" && t != s && Utf8Len(t) == Utf8Len(s)
    ensures Find(Mask(text, [s, t]), s).Some?
  {
    hide Find, Replace, Mask, Missing, Utf8Len;
    var d := Other(s[0], s[|s| - 1], s[m - 1]);
    var x, y := s[..m], Missing(s, m);
    t := seq(Utf8Len(s), _ => d);
    Utf8LenAscii(t);
    assert t[0] == d;
    text := x + t + y;
    OtherHidesNone(x, t, y, s, d);
    ReplaceAbsent(text, s, REDACTED);
    OtherIsFirst(x, t, d);
    ReplaceLeading(x, t, y);
    MaskTwo(text, s, t);
    ReadAcross(s, m);
  }

  lemma MaskTwo(text: string, s: string, t: string)
    requires s != "" && t != ""
    ensures Mask(text, [s, t]) == Replace(Replace(text, s, REDACTED), t, REDACTED)
  {
    MaskOne(text, s);
    assert [s, t][..1] == [s];
  }

  /** The orders in which secrets can be masked. */
  ghost predicate LongestFirst(order: seq<string>) {
    forall i, j :: 0 <= i < j < |order| ==> Utf8Len(order[i]) >= Utf8Len(order[j]) && order[i] != order[j]
  }

  ghost predicate LongSecrets(order: seq<string>) {
    LongestFirst(order) && forall i :: 0 <= i < |order| ==> Utf8Len(order[i]) >= 8
  }

  /** The condition is exact: a secret is hidden whatever secrets are masked with it if and only if it does
      not overlap the mask. */
  lemma HiddenAmongOthers(s: string)
    requires Utf8Len(s) >= 8
    ensures !Overlaps(s) <==>
      forall text, order :: LongSecrets(order) && s in order ==> Find(Mask(text, order), s).None?
  {
    hide Find, Mask, Overlaps, Utf8Len, LongSecrets;
    if !Overlaps(s) {
      forall text, order | LongSecrets(order) && s in order ensures Find(Mask(text, order), s).None? {
        LongIsMaskable(order);
        var i :| 0 <= i < |order| && order[i] == s;
        MaskHoldsNoSecret(text, order, i);
      }
    } else {
      var text, order := OverlapShows(s);
    }
  }

  lemma LongIsMaskable(order: seq<string>)
    requires LongSecrets(order)
    ensures Maskable(order)
  {
  }

  lemma OverlapShows(s: string) returns (text: string, order: seq<string>)
    requires Utf8Len(s) >= 8 && Overlaps(s)
    ensures LongSecrets(order) && s in order && Find(Mask(text, order), s).Some?
  {
    hide Find, Mask, StartsInMask, RunsIntoMask, Utf8Len;
    assert s != "" by { NoBytes(s); }
    if StartsInMask(s) {
      text := ResurfacingText(s);
      MaskOne(text, s);
      order := [s];
    } else {
      var m :| 0 < m < |s| && RunsIntoMask(s, m);
      var t: string;
      text, t := ShowsThroughOther(s, m);
      order := [s, t];
    }
  }

  lemma NoBytes(s: string)
    requires Utf8Len(s) > 0
    ensures s != ""
  {
  }

  lemma NotInMask(s: string)
    requires s != "" && !Overlaps(s)
    ensures Find(REDACTED, s).None?
  {
    hide Find;
    assert forall j :: 0 <= j < |REDACTED| ==> !Comparable(s, REDACTED[j..]);
    if Find(REDACTED, s).Some? {
      FindHit(REDACTED, s);
    }
  }

  /** A secret without angle brackets that is not a part of the word in the mask does not overlap it. */
  lemma PlainSecretDoesNotOverlap(s: string)
    requires s != "" && '<' !in s && '>' !in s && Find(WORD, s).None?
    ensures !Overlaps(s)
  {
    hide Find;
    assert forall i :: 0 <= i < |s| ==> s[i] != '<' && s[i] != '>';
    forall j | 0 <= j < |REDACTED| ensures !Comparable(s, REDACTED[j..]) {
      var part := REDACTED[j..];
      assert part[|part| - 1] == '>';
      if j == 0 {
        assert part[0] == '<';
      } else {
        NotInMaskWord(s, j);
      }
    }
    forall m | 0 < m < |s| ensures !RunsIntoMask(s, m) {
      assert s[m..][0] == s[m] && REDACTED[0] == '<';
    }
  }

  lemma WordIsInMask(j: nat)
    requires 0 < j < |REDACTED|
    ensures REDACTED[j..] == WORD[j - 1..] + ">"
  {
    assert REDACTED == "<" + (WORD + ">");
    assert REDACTED[1..] == WORD + ">";
    assert REDACTED[j..] == REDACTED[1..][j - 1..];
  }

  lemma NotInMaskWord(s: string, j: nat)
    requires s != "" && Find(WORD, s).None? && 0 < j < |REDACTED|
    requires forall i :: 0 <= i < |s| ==> s[i] != '>'
    ensures !(s <= REDACTED[j..])
  {
    hide Find;
    var part, word := REDACTED[j..], WORD[j - 1..];
    WordIsInMask(j);
    assert part[|word|] == '>';
    if |s| <= |word| {
      if s <= word {
        FindIsFirst(WORD, s, j - 1);
      }
      assert part[..|s|] == word[..|s|];
    }
  }
}
