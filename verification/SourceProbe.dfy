/** The two hand-written Rust scanners of `source_probe.rs`: `body_of` finds the closing brace of an
    item, `code_of` drops the comments of that body. Both are proved against one segmentation. */
module SourceProbe {
  import opened Text

  // ----- Segments -----

  datatype Kind = LineComment | BlockComment | Literal | Plain

  datatype Segment = Segment(kind: Kind, text: string)

  /** Characters of `u` before its first newline. */
  function LineLen(u: string): (n: nat)
    ensures n <= |u|
  {
    match Find(u, "\n") case None => |u| case Some(n) => n
  }

  /** Characters of `u` up to the end of `depth` open block comments; all of `u` when they never end. */
  function BlockLen(u: string, depth: nat): (n: nat)
    ensures n <= |u|
    decreases |u|
  {
    if depth == 0 then 0
    else if |u| < 2 then |u|
    else if u[0] == '/' && u[1] == '*' then 2 + BlockLen(u[2..], depth + 1)
    else if u[0] == '*' && u[1] == '/' then 2 + BlockLen(u[2..], depth - 1)
    else 1 + BlockLen(u[1..], depth)
  }

  /** Characters of `u` through the unescaped `quote` that ends a literal; all of `u` when none does. */
  function QuoteLen(u: string, quote: char): (n: nat)
    ensures n <= |u|
    decreases |u|
  {
    if u == "" then 0
    else if u[0] == '\\' then (if |u| < 2 then |u| else 2 + QuoteLen(u[2..], quote))
    else if u[0] == quote then 1
    else 1 + QuoteLen(u[1..], quote)
  }

  function Hashes(u: string): (n: nat)
    ensures n <= |u|
  {
    if u != "" && u[0] == '#' then 1 + Hashes(u[1..]) else 0
  }

  function Terminator(hashes: nat): (t: string)
    ensures |t| == hashes + 1
  {
    "\"" + seq(hashes, _ => '#')
  }

  /** Whether the `r` at the head of `u` opens a raw string. */
  predicate OpensRaw(u: string)
    requires u != ""
  {
    var h := Hashes(u[1..]);
    1 + h < |u| && u[1 + h] == '"'
  }

  /** Characters of the raw string that opens at the head of `u`. */
  function RawLen(u: string): (n: nat)
    requires u != "" && OpensRaw(u)
    ensures 2 <= n <= |u|
  {
    var h := Hashes(u[1..]);
    match Find(u[2 + h..], Terminator(h)) case None => |u| case Some(n) => 2 + h + n + (h + 1)
  }

  /** An apostrophe followed by an identifier start that the next character does not close. */
  predicate OpensLifetime(u: string)
    requires u != "" && u[0] == '\''
  {
    && 1 < |u|
    && ('a' <= u[1] <= 'z' || 'A' <= u[1] <= 'Z' || u[1] == '_')
    && !(2 < |u| && u[2] == '\'')
  }

  /** The kind of the first segment of `u`. */
  function HeadKind(u: string): Kind
    requires u != ""
  {
    if u[0] == '/' && 1 < |u| && u[1] == '/' then LineComment
    else if u[0] == '/' && 1 < |u| && u[1] == '*' then BlockComment
    else if u[0] == 'r' && OpensRaw(u) then Literal
    else if u[0] == '"' || (u[0] == '\'' && !OpensLifetime(u)) then Literal
    else Plain
  }

  /** The length of the first segment of `u`. */
  function HeadLen(u: string): (n: nat)
    requires u != ""
    ensures 0 < n <= |u|
  {
    match HeadKind(u)
    case LineComment => assert Find(u, "\n") != Some(0); LineLen(u)
    case BlockComment => 2 + BlockLen(u[2..], 1)
    case Literal => if u[0] == 'r' then RawLen(u) else 1 + QuoteLen(u[1..], u[0])
    case Plain => 1
  }

  function Segments(u: string): seq<Segment> {
    if u == "" then [] else [Segment(HeadKind(u), u[..HeadLen(u)])] + Segments(u[HeadLen(u)..])
  }

  function Join(segments: seq<Segment>): string {
    if segments == [] then "" else segments[0].text + Join(segments[1..])
  }

  function WithoutComments(segments: seq<Segment>): string {
    if segments == [] then ""
    else (if segments[0].kind.LineComment? || segments[0].kind.BlockComment? then "" else segments[0].text)
         + WithoutComments(segments[1..])
  }

  /** Nothing is lost and nothing is reordered: the segments are the text. */
  lemma {:induction false} SegmentsJoin(u: string)
    ensures Join(Segments(u)) == u
  {
    if u != "" {
      SegmentsJoin(u[HeadLen(u)..]);
    }
  }

  // ----- Brace depth -----

  function Weight(s: Segment): int {
    if s == Segment(Plain, "{") then 1 else if s == Segment(Plain, "}") then -1 else 0
  }

  function Depth(segments: seq<Segment>): int {
    if segments == [] then 0 else Weight(segments[0]) + Depth(segments[1..])
  }

  /** Characters of `u` through the brace that closes `depth` open ones. */
  function CloseLen(u: string, depth: nat): (r: Option<nat>)
    requires depth > 0 || (u != "" && u[0] == '{')
    ensures r.Some? ==> 0 < r.value <= |u|
    decreases |u|
  {
    if u == "" then None
    else if u[0] == '}' && depth == 1 then Some(1)
    else
      var n := HeadLen(u);
      match CloseLen(u[n..], DepthAfter(u, depth))
      case None => None
      case Some(m) => Some(n + m)
  }

  /** The brace depth after the first segment of `u`. */
  function DepthAfter(u: string, depth: nat): (d: nat)
    requires u != ""
    requires depth > 0 || u[0] == '{'
    requires !(u[0] == '}' && depth == 1)
    ensures d > 0
  {
    if u[0] == '{' then depth + 1 else if u[0] == '}' then depth - 1 else depth
  }

  lemma DepthAfterWeight(u: string, depth: nat)
    requires u != "" && (depth > 0 || u[0] == '{') && !(u[0] == '}' && depth == 1)
    ensures DepthAfter(u, depth) == depth + Weight(Segment(HeadKind(u), u[..HeadLen(u)]))
  {
    var t := u[..HeadLen(u)];
    assert t[0] == u[0];
    if u[0] == '{' {
      assert t == "{";
    } else if u[0] == '}' {
      assert t == "}";
    }
  }

  lemma {:induction false} CloseEndsWithBrace(u: string, depth: nat)
    requires depth > 0 || (u != "" && u[0] == '{')
    requires CloseLen(u, depth).Some?
    ensures u[CloseLen(u, depth).value - 1] == '}'
    decreases |u|
  {
    if !(u[0] == '}' && depth == 1) {
      CloseEndsWithBrace(u[HeadLen(u)..], DepthAfter(u, depth));
    }
  }

  // ----- Truncation: a segment does not depend on text beyond the closing brace -----

  lemma {:induction false} FindPrefix(u: string, pat: string, m: nat)
    requires Find(u, pat).Some? && Find(u, pat).value + |pat| <= m <= |u|
    ensures Find(u[..m], pat) == Find(u, pat)
  {
    if pat <= u {
      assert pat <= u[..m];
    } else {
      assert !(pat <= u[..m]) && m > 0;
      assert u[..m][1..] == u[1..][..m - 1];
      FindPrefix(u[1..], pat, m - 1);
    }
  }

  lemma {:induction false} BlockPrefix(u: string, depth: nat, m: nat)
    requires BlockLen(u, depth) < m <= |u|
    ensures BlockLen(u[..m], depth) == BlockLen(u, depth)
    decreases |u|
  {
    if depth > 0 && |u| >= 2 {
      if u[0] == '/' && u[1] == '*' {
        assert u[..m][2..] == u[2..][..m - 2];
        BlockPrefix(u[2..], depth + 1, m - 2);
      } else if u[0] == '*' && u[1] == '/' {
        assert u[..m][2..] == u[2..][..m - 2];
        BlockPrefix(u[2..], depth - 1, m - 2);
      } else {
        assert u[..m][1..] == u[1..][..m - 1];
        BlockPrefix(u[1..], depth, m - 1);
        BlockNotEmpty(u[1..], depth);
      }
    }
  }

  lemma BlockNotEmpty(u: string, depth: nat)
    requires depth > 0 && u != ""
    ensures BlockLen(u, depth) > 0
  {
  }

  lemma {:induction false} QuotePrefix(u: string, quote: char, m: nat)
    requires QuoteLen(u, quote) < m <= |u|
    ensures QuoteLen(u[..m], quote) == QuoteLen(u, quote)
    decreases |u|
  {
    if u[0] == '\\' {
      if |u| >= 2 {
        assert u[..m][2..] == u[2..][..m - 2];
        QuotePrefix(u[2..], quote, m - 2);
      }
    } else if u[0] != quote {
      assert u[..m][1..] == u[1..][..m - 1];
      QuotePrefix(u[1..], quote, m - 1);
    }
  }

  lemma {:induction false} HashAt(u: string, i: nat)
    requires i < Hashes(u)
    ensures u[i] == '#'
  {
    if i > 0 {
      HashAt(u[1..], i - 1);
    }
  }

  lemma {:induction false} HashesPrefix(u: string, m: nat)
    requires m <= |u|
    ensures Hashes(u[..m]) == if Hashes(u) <= m then Hashes(u) else m
  {
    if m > 0 && u[0] == '#' {
      assert u[..m][1..] == u[1..][..m - 1];
      HashesPrefix(u[1..], m - 1);
    }
  }

  lemma {:induction false} RawPrefix(u: string, m: nat)
    requires u != "" && u[0] == 'r' && HeadLen(u) < m <= |u| && u[m - 1] == '}'
    ensures HeadKind(u[..m]) == HeadKind(u) && HeadLen(u[..m]) == HeadLen(u)
  {
    hide Find, BlockLen, QuoteLen, Hashes;
    var v, h := u[..m], Hashes(u[1..]);
    assert v[1..] == u[1..][..m - 1];
    HashesPrefix(u[1..], m - 1);
    assert h < m - 1 by {
      if m - 1 <= h {
        HashAt(u[1..], m - 2);
      }
    }
    if OpensRaw(u) {
      var w := u[2 + h..];
      assert v[2 + h..] == w[..m - 2 - h];
      assert Find(w, Terminator(h)).Some?;
      FindPrefix(w, Terminator(h), m - 2 - h);
    }
  }

  /** Cutting the text right behind a later `}` leaves its first segment as it was. */
  lemma {:induction false} HeadPrefix(u: string, m: nat)
    requires u != "" && HeadLen(u) < m <= |u| && u[m - 1] == '}'
    ensures HeadKind(u[..m]) == HeadKind(u) && HeadLen(u[..m]) == HeadLen(u)
  {
    if u[0] == 'r' {
      RawPrefix(u, m);
    } else {
      match HeadKind(u)
      case LineComment => FindPrefix(u, "\n", m);
      case BlockComment =>
        assert u[..m][2..] == u[2..][..m - 2];
        BlockPrefix(u[2..], 1, m - 2);
      case Literal =>
        assert u[..m][1..] == u[1..][..m - 1];
        QuotePrefix(u[1..], u[0], m - 1);
      case Plain =>
    }
  }

  lemma SegmentsHead(u: string)
    requires u != ""
    ensures Segments(u) == [Segment(HeadKind(u), u[..HeadLen(u)])] + Segments(u[HeadLen(u)..])
  {
    hide HeadKind, HeadLen;
  }

  lemma {:induction false} SegmentsPrefix(u: string, m: nat)
    requires u != "" && HeadLen(u) < m <= |u| && u[m - 1] == '}'
    ensures Segments(u[..m]) == [Segment(HeadKind(u), u[..HeadLen(u)])] + Segments(u[HeadLen(u)..][..m - HeadLen(u)])
  {
    hide HeadKind, HeadLen, Segments;
    var n := HeadLen(u);
    HeadPrefix(u, m);
    assert u[..m][n..] == u[n..][..m - n];
    assert u[..m][..n] == u[..n];
    SegmentsHead(u[..m]);
  }

  // ----- The body -----

  /** `depth` open braces, and these segments leave a positive depth until the last of them, a plain
      closing brace, brings it to zero. */
  ghost predicate ClosesAtEnd(segs: seq<Segment>, depth: int) {
    && segs != []
    && if |segs| == 1 then segs[0] == Segment(Plain, "}") && depth == 1
       else depth + Weight(segs[0]) > 0 && ClosesAtEnd(segs[1..], depth + Weight(segs[0]))
  }

  lemma {:induction false} ClosesAtEndMeans(segs: seq<Segment>, depth: int)
    requires ClosesAtEnd(segs, depth)
    ensures segs[|segs| - 1] == Segment(Plain, "}")
    ensures depth + Depth(segs) == 0
    ensures forall k :: 0 < k < |segs| ==> depth + Depth(segs[..k]) > 0
  {
    if |segs| == 1 {
      assert Depth(segs) == Weight(segs[0]) + Depth(segs[1..]);
    } else {
      var d := depth + Weight(segs[0]);
      ClosesAtEndMeans(segs[1..], d);
      forall k | 0 < k < |segs| ensures depth + Depth(segs[..k]) > 0 {
        assert segs[..k][1..] == segs[1..][..k - 1];
        assert k == 1 || d + Depth(segs[1..][..k - 1]) > 0;
      }
    }
  }

  lemma PrefixCons<T>(head: T, a: seq<T>, b: seq<T>)
    requires a <= b
    ensures [head] + a <= [head] + b
  {
  }

  /** A character that opens nothing is a segment of its own. */
  lemma PlainHead(u: string)
    requires u != "" && u[0] !in ['/', 'r', '"', '\'']
    ensures HeadKind(u) == Plain && HeadLen(u) == 1
  {
  }

  lemma ClosedNow(u: string)
    requires u != "" && u[0] == '}'
    ensures Segments(u[..1]) == [Segment(Plain, "}")]
    ensures Segments(u[..1]) <= Segments(u)
  {
    hide HeadKind, HeadLen, Segments;
    var b := u[..1];
    PlainHead(u);
    PlainHead(b);
    SegmentsHead(u);
    SegmentsHead(b);
    assert b[..1] == b == "}" && b[1..] == "";
    NoSegments();
  }

  lemma NoSegments()
    ensures Segments("") == []
  {
  }

  lemma CloseNext(u: string, depth: nat, m: nat)
    requires u != "" && (depth > 0 || u[0] == '{') && !(u[0] == '}' && depth == 1)
    requires CloseLen(u, depth) == Some(m)
    ensures m > HeadLen(u) && CloseLen(u[HeadLen(u)..], DepthAfter(u, depth)) == Some(m - HeadLen(u))
  {
    hide HeadLen, DepthAfter;
  }

  lemma ClosesCons(head: Segment, tail: seq<Segment>, depth: int)
    requires depth + Weight(head) > 0 && ClosesAtEnd(tail, depth + Weight(head))
    ensures ClosesAtEnd([head] + tail, depth)
  {
    hide Weight;
    assert ([head] + tail)[1..] == tail;
  }

  lemma {:induction false} CloseIsBalanced(u: string, depth: nat, m: nat)
    requires depth > 0 || (u != "" && u[0] == '{')
    requires CloseLen(u, depth) == Some(m)
    ensures Segments(u[..m]) <= Segments(u)
    ensures ClosesAtEnd(Segments(u[..m]), depth)
    decreases |u|
  {
    hide CloseLen, HeadLen, HeadKind, Segments, ClosesAtEnd, DepthAfter, Weight;
    CloseNeedsText(u, depth);
    if u[0] == '}' && depth == 1 {
      ClosesHere(u);
      ClosedNow(u);
    } else {
      var n := HeadLen(u);
      var head := Segment(HeadKind(u), u[..n]);
      CloseNext(u, depth, m);
      CloseIsBalanced(u[n..], DepthAfter(u, depth), m - n);
      DepthAfterWeight(u, depth);
      CloseEndsWithBrace(u, depth);
      SegmentsPrefix(u, m);
      SegmentsHead(u);
      ClosesCons(head, Segments(u[n..][..m - n]), depth);
      PrefixCons(head, Segments(u[n..][..m - n]), Segments(u[n..]));
    }
  }

  lemma CloseNeedsText(u: string, depth: nat)
    requires (depth > 0 || (u != "" && u[0] == '{')) && CloseLen(u, depth).Some?
    ensures u != ""
  {
  }

  lemma ClosesHere(u: string)
    requires u != "" && u[0] == '}'
    ensures CloseLen(u, 1) == Some(1) && ClosesAtEnd([Segment(Plain, "}")], 1)
  {
  }

  /** And failing to close means that no prefix of the segments brings the depth to zero. */
  lemma {:induction false} NeverCloses(u: string, depth: nat, k: nat)
    requires depth > 0 || (u != "" && u[0] == '{')
    requires CloseLen(u, depth).None? && 0 < k <= |Segments(u)|
    ensures depth + Depth(Segments(u)[..k]) > 0
    decreases |u|
  {
    var n := HeadLen(u);
    var head, tail := Segment(HeadKind(u), u[..n]), Segments(u[n..]);
    assert Segments(u)[..k] == [head] + tail[..k - 1];
    assert ([head] + tail[..k - 1])[1..] == tail[..k - 1];
    if k > 1 {
      NeverCloses(u[n..], DepthAfter(u, depth), k - 1);
    }
    DepthAfterWeight(u, depth);
  }

  // ----- Locating the item -----

  function LineStart(source: string, at: nat): (n: nat)
    requires at <= |source|
    ensures n <= at
  {
    if at == 0 || source[at - 1] == '\n' then at else LineStart(source, at - 1)
  }

  /** Only indentation stands between the start of its line and `at`. */
  predicate Declares(source: string, at: nat)
    requires at <= |source|
  {
    IsBlank(source[LineStart(source, at)..at])
  }

  /** The first of the non-overlapping occurrences of `signature` from `from` on that starts a line. */
  function Declaration(source: string, signature: string, from: nat): (r: Option<nat>)
    requires from <= |source|
    ensures r.Some? ==> r.value + |signature| <= |source|
    decreases |source| - from
  {
    match Find(source[from..], signature)
    case None => None
    case Some(n) =>
      var at := from + n;
      var next := at + if signature == "" then 1 else |signature|;
      if Declares(source, at) then Some(at)
      else if next > |source| then None
      else Declaration(source, signature, next)
  }

  /** Nothing but white space from the start of the text, or from behind a newline, up to `at`. */
  ghost predicate Indents(source: string, from: nat, at: nat) {
    && from <= at <= |source| && (from == 0 || source[from - 1] == '\n')
    && forall i :: from <= i < at ==> IsWhitespace(source[i])
  }

  /** This is what starting a line means. */
  lemma DeclaresMeans(source: string, at: nat)
    requires at <= |source|
    ensures Declares(source, at) <==> exists from: nat :: Indents(source, from, at)
  {
    hide IsBlank, IsWhitespace;
    var start := LineStart(source, at);
    LineStartMeans(source, at);
    BlankLine(source, start, at);
    if Declares(source, at) {
      assert Indents(source, start, at);
    }
    forall from: nat | Indents(source, from, at) ensures Declares(source, at) {
      LineStartIsLast(source, at, from);
    }
  }

  lemma {:induction false} LineStartMeans(source: string, at: nat)
    requires at <= |source|
    ensures var start := LineStart(source, at); start == 0 || source[start - 1] == '\n'
  {
    if at > 0 && source[at - 1] != '\n' {
      LineStartMeans(source, at - 1);
    }
  }

  lemma {:induction false} LineStartIsLast(source: string, at: nat, from: nat)
    requires from <= at <= |source| && (from == 0 || source[from - 1] == '\n')
    ensures from <= LineStart(source, at)
  {
    if from < at {
      LineStartIsLast(source, at - 1, from);
    }
  }

  lemma BlankLine(source: string, start: nat, at: nat)
    requires start <= at <= |source|
    ensures IsBlank(source[start..at]) <==> forall i :: start <= i < at ==> IsWhitespace(source[i])
  {
    hide IsBlank, IsWhitespace;
    var line := source[start..at];
    BlankMeans(line);
    assert forall i :: 0 <= i < |line| ==> line[i] == source[start + i];
    if forall i :: 0 <= i < |line| ==> IsWhitespace(line[i]) {
      forall i | start <= i < at ensures IsWhitespace(source[i]) {
        assert source[i] == line[i - start];
      }
    }
  }

  lemma {:induction false} LineStartBelow(source: string, a: nat, k: nat)
    requires a <= k <= |source| && forall i :: a <= i < k ==> source[i] != '\n'
    ensures LineStart(source, k) == LineStart(source, a)
    decreases k
  {
    if a < k {
      LineStartBelow(source, a, k - 1);
    }
  }

  /** What is found is an occurrence that starts a line ... */
  lemma {:induction false} DeclarationStartsLine(source: string, signature: string, from: nat)
    requires from <= |source| && Declaration(source, signature, from).Some?
    ensures var at := Declaration(source, signature, from).value;
      from <= at <= |source| && signature <= source[at..] && Declares(source, at)
    decreases |source| - from
  {
    hide Find, Declares;
    FindHit(source[from..], signature);
    var at := from + Find(source[from..], signature).value;
    assert source[from..][at - from..] == source[at..];
    if !Declares(source, at) {
      DeclarationStartsLine(source, signature, at + if signature == "" then 1 else |signature|);
    }
  }

  /** ... and, for a one-line signature that starts with a visible character, the first one that does: an
      occurrence inside an earlier one cannot start a line. */
  lemma {:induction false} DeclarationIsFirst(source: string, signature: string, from: nat, k: nat)
    requires signature != "" && !IsWhitespace(signature[0]) && '\n' !in signature
    requires from <= k <= |source| && signature <= source[k..] && Declares(source, k)
    ensures Declaration(source, signature, from).Some? && Declaration(source, signature, from).value <= k
    decreases |source| - from
  {
    hide Find, Declares, IsWhitespace;
    FirstFrom(source, signature, from, k);
    var at := from + Find(source[from..], signature).value;
    if !Declares(source, at) {
      NoOverlap(source, signature, at, k);
      DeclarationIsFirst(source, signature, at + |signature|, k);
    }
  }

  lemma FirstFrom(source: string, signature: string, from: nat, k: nat)
    requires from <= k <= |source| && signature <= source[k..]
    ensures Find(source[from..], signature).Some?
    ensures var at := from + Find(source[from..], signature).value; at <= k && signature <= source[at..]
  {
    hide Find;
    assert source[from..][k - from..] == source[k..];
    FindIsFirst(source[from..], signature, k - from);
    FindHit(source[from..], signature);
    var n := Find(source[from..], signature).value;
    assert source[from..][n..] == source[from + n..];
  }

  lemma NoOverlap(source: string, signature: string, at: nat, k: nat)
    requires signature != "" && !IsWhitespace(signature[0]) && '\n' !in signature
    requires at <= k <= |source| && signature <= source[at..] && Declares(source, k) && !Declares(source, at)
    ensures at + |signature| <= k
  {
    hide IsBlank;
    if k < at + |signature| {
      forall i | at <= i < k ensures source[i] != '\n' {
        assert source[i] == source[at..][i - at] == signature[i - at];
      }
      LineStartBelow(source, at, k);
      var line := source[LineStart(source, k)..k];
      var i := at - LineStart(source, k);
      assert at < k;
      assert line[i] == source[at] == source[at..][0] == signature[0];
      BlankIsWhitespace(line, i);
    }
  }

  datatype Probe =
    | NotDeclared
    | NoBody
    | NotClosed
    | Body(text: string)

  /** The text from the opening brace of the item on. */
  function ItemText(source: string, signature: string): (r: Option<string>)
    ensures r.Some? ==> r.value != "" && r.value[0] == '{'
  {
    match Declaration(source, signature, 0)
    case None => None
    case Some(start) =>
      match Find(source[start..], "{")
      case None => None
      case Some(open) => FindHit(source[start..], "{"); Some(source[start..][open..])
  }

  /** What `body_of` answers: the text through the closing brace, or which of its panics it raises. */
  function Expected(source: string, signature: string): Probe {
    if Declaration(source, signature, 0).None? then NotDeclared
    else match ItemText(source, signature)
      case None => NoBody
      case Some(text) =>
        match CloseLen(text, 0)
        case None => NotClosed
        case Some(n) => Body(text[..n])
  }

  // ----- The scanners -----

  /** The loop both scanners run inside a block comment that opens at `index`. */
  method SkipBlockComment(text: string, index: nat) returns (end: nat)
    requires index + 2 <= |text|
    ensures end == index + 2 + BlockLen(text[index + 2..], 1)
  {
    hide BlockLen;
    var depth: nat := 1;
    var scan := index + 2;
    ghost var target := scan + BlockLen(text[scan..], 1);
    while scan + 1 < |text| && depth > 0
      invariant index + 2 <= scan <= |text|
      invariant scan + BlockLen(text[scan..], depth) == target
      decreases |text| - scan
    {
      BlockNext(text, scan, depth);
      if text[scan] == '/' && text[scan + 1] == '*' {
        depth, scan := depth + 1, scan + 2;
      } else if text[scan] == '*' && text[scan + 1] == '/' {
        depth, scan := depth - 1, scan + 2;
      } else {
        scan := scan + 1;
      }
    }
    BlockEnds(text, scan, depth);
    end := if depth == 0 then scan else |text|;
  }

  lemma BlockNext(text: string, scan: nat, depth: nat)
    requires scan + 1 < |text| && depth > 0
    ensures BlockLen(text[scan..], depth) ==
      if At(text, scan, '/', '*') then 2 + BlockLen(text[scan + 2..], depth + 1)
      else if At(text, scan, '*', '/') then 2 + BlockLen(text[scan + 2..], depth - 1)
      else 1 + BlockLen(text[scan + 1..], depth)
  {
    assert text[scan..][2..] == text[scan + 2..];
    assert text[scan..][1..] == text[scan + 1..];
  }

  lemma BlockEnds(text: string, scan: nat, depth: nat)
    requires scan <= |text| && (depth == 0 || scan + 1 >= |text|)
    ensures BlockLen(text[scan..], depth) == if depth == 0 then 0 else |text| - scan
  {
  }

  /** The loop both scanners run inside a string or character literal that opens at `index`. A trailing
      backslash leaves the result one past the end. */
  method SkipQuoted(text: string, index: nat) returns (end: nat)
    requires index < |text|
    ensures end <= |text| + 1
    ensures (if end <= |text| then end else |text|) == index + 1 + QuoteLen(text[index + 1..], text[index])
  {
    var quote := text[index];
    var scan := index + 1;
    ghost var target := scan + QuoteLen(text[scan..], quote);
    while scan < |text|
      invariant index < scan <= |text| + 1
      invariant if scan <= |text| then scan + QuoteLen(text[scan..], quote) == target else target == |text|
    {
      if text[scan] == '\\' {
        assert scan + 2 <= |text| ==> text[scan..][2..] == text[scan + 2..];
        scan := scan + 2;
      } else if text[scan] == quote {
        scan := scan + 1;
        return scan;
      } else {
        assert text[scan..][1..] == text[scan + 1..];
        scan := scan + 1;
      }
    }
    end := scan;
  }

  /** `CloseLen` read from position `index`, which a trailing backslash may have put past the end. */
  ghost function CloseFrom(text: string, index: nat, depth: nat): Option<nat>
    requires depth > 0 || (index < |text| && text[index] == '{')
  {
    if index > |text| then None
    else match CloseLen(text[index..], depth) case None => None case Some(n) => Some(index + n)
  }

  /** One segment further: the head at `index` has length `n` and leaves depth `after`. */
  lemma CloseFromNext(text: string, index: nat, depth: nat, n: nat, after: nat)
    requires index < |text| && (depth > 0 || text[index] == '{')
    requires !(text[index] == '}' && depth == 1)
    requires n == HeadLen(text[index..])
    requires after == if text[index] == '{' then depth + 1 else if text[index] == '}' then depth - 1 else depth
    ensures after > 0 && CloseFrom(text, index, depth) == CloseFrom(text, index + n, after)
  {
    hide HeadLen, HeadKind;
    assert text[index..][n..] == text[index + n..];
  }

  predicate At(text: string, index: nat, first: char, second: char) {
    index + 1 < |text| && text[index] == first && text[index + 1] == second
  }

  /** The arms of the scanners' `match`, in their order, as the first segment at `index`. */
  lemma HeadAt(text: string, index: nat)
    requires index < |text|
    ensures var u, c := text[index..], text[index];
      if At(text, index, '/', '/') then HeadKind(u) == LineComment && HeadLen(u) == LineLen(u)
      else if At(text, index, '/', '*') then HeadKind(u) == BlockComment && HeadLen(u) == 2 + BlockLen(text[index + 2..], 1)
      else if c == 'r' && OpensRaw(u) then HeadKind(u) == Literal && HeadLen(u) == RawLen(u)
      else if c == '\'' && OpensLifetime(u) then HeadKind(u) == Plain && HeadLen(u) == 1
      else if c == '"' || c == '\'' then HeadKind(u) == Literal && HeadLen(u) == 1 + QuoteLen(text[index + 1..], c)
      else HeadKind(u) == Plain && HeadLen(u) == 1
  {
    var u := text[index..];
    assert u[1..] == text[index + 1..];
    if |u| >= 2 {
      assert u[2..] == text[index + 2..];
    }
  }

  /** `body_of` steps over a line comment and its newline at once: two segments. */
  lemma SkipLine(text: string, index: nat, depth: nat)
    requires At(text, index, '/', '/') && depth > 0
    ensures CloseFrom(text, index, depth)
         == match Find(text[index..], "\n")
            case None => CloseFrom(text, |text|, depth)
            case Some(n) => CloseFrom(text, index + n + 1, depth)
  {
    hide HeadLen, HeadKind, CloseFrom;
    var u := text[index..];
    HeadAt(text, index);
    var n := LineLen(u);
    CloseFromNext(text, index, depth, n, depth);
    if Find(u, "\n").Some? {
      FindHit(u, "\n");
      assert text[index + n] == u[n..][0] == '\n';
      HeadAt(text, index + n);
      CloseFromNext(text, index + n, depth, 1, depth);
    }
  }

  /** The main loop of `body_of`: the position behind the brace that closes the one at `open`. */
  method ScanBody(rest: string, open: nat) returns (close: Option<nat>)
    requires open < |rest| && rest[open] == '{'
    ensures close == CloseFrom(rest, open, 0)
    ensures close.Some? ==> open <= close.value <= |rest|
  {
    hide CloseLen, HeadLen, HeadKind, BlockLen, QuoteLen, RawLen, OpensRaw, OpensLifetime, Find;
    var depth: nat := 0;
    var index := open;
    while index < |rest|
      invariant open <= index <= |rest| + 1
      invariant depth > 0 || index == open
      invariant CloseFrom(rest, index, depth) == CloseFrom(rest, open, 0)
      decreases |rest| + 1 - index
    {
      var c, from, before := rest[index], index, depth;
      HeadAt(rest, index);
      if At(rest, index, '/', '/') {
        SkipLine(rest, index, depth);
        index := index + match Find(rest[index..], "\n") case None => |rest| - index case Some(n) => n + 1;
        continue;
      } else if At(rest, index, '/', '*') {
        index := SkipBlockComment(rest, index);
      } else if c == 'r' && OpensRaw(rest[index..]) {
        index := index + RawLen(rest[index..]);
      } else if c == '\'' && OpensLifetime(rest[index..]) {
        index := index + 1;
      } else if c == '"' || c == '\'' {
        index := SkipQuoted(rest, index);
      } else {
        if c == '{' {
          depth := depth + 1;
        } else if c == '}' {
          if depth == 1 {
            CloseHere(rest, index);
            return Some(index + 1);
          }
          depth := depth - 1;
        }
        index := index + 1;
      }
      CloseFromNext(rest, from, before, HeadLen(rest[from..]), depth);
      PastTheEnd(rest, index, depth);
    }
    PastTheEnd(rest, index, depth);
    close := None;
  }

  lemma CloseHere(text: string, index: nat)
    requires index < |text| && text[index] == '}'
    ensures CloseFrom(text, index, 1) == Some(index + 1)
  {
  }

  lemma PastTheEnd(text: string, index: nat, depth: nat)
    requires depth > 0
    ensures CloseFrom(text, |text|, depth) == None
    ensures |text| <= index ==> CloseFrom(text, index, depth) == None
  {
  }

  lemma Slice<T>(s: seq<T>, lo: nat, hi: nat)
    requires lo <= hi <= |s|
    ensures s[lo..hi] == s[lo..][..hi - lo]
  {
  }

  lemma OpenBrace(rest: string, open: nat)
    requires Find(rest, "{") == Some(open)
    ensures open < |rest| && rest[open] == '{'
  {
    hide Find;
    FindHit(rest, "{");
    assert rest[open] == rest[open..][0];
  }

  lemma ExpectedFrom(source: string, signature: string, start: nat, open: nat)
    requires Declaration(source, signature, 0) == Some(start) && Find(source[start..], "{") == Some(open)
    ensures ItemText(source, signature) == Some(source[start..][open..])
  {
    hide Declaration, Find, Declares;
  }

  lemma ExpectedBody(source: string, signature: string, text: string)
    requires Declaration(source, signature, 0).Some? && ItemText(source, signature) == Some(text)
    ensures Expected(source, signature) == match CloseLen(text, 0) case None => NotClosed case Some(n) => Body(text[..n])
  {
    hide Declaration, ItemText, CloseLen;
  }

  /** `body_of`. */
  method BodyOf(source: string, signature: string) returns (r: Probe)
    ensures r == Expected(source, signature)
  {
    hide Declaration, ItemText, Find, CloseLen, Expected;
    var start := Declaration(source, signature, 0);
    if start.None? {
      Undeclared(source, signature);
      return NotDeclared;
    }
    var rest := source[start.value..];
    var open := Find(rest, "{");
    if open.None? {
      NoBrace(source, signature, start.value);
      return NoBody;
    }
    OpenBrace(rest, open.value);
    ExpectedFrom(source, signature, start.value, open.value);
    ExpectedBody(source, signature, rest[open.value..]);
    var close := ScanBody(rest, open.value);
    if close.None? {
      return NotClosed;
    }
    Slice(rest, open.value, close.value);
    r := Body(rest[open.value..close.value]);
  }

  lemma Undeclared(source: string, signature: string)
    requires Declaration(source, signature, 0).None?
    ensures Expected(source, signature) == NotDeclared
  {
  }

  lemma NoBrace(source: string, signature: string, start: nat)
    requires Declaration(source, signature, 0) == Some(start) && Find(source[start..], "{").None?
    ensures Expected(source, signature) == NoBody
  {
  }

  function Kept(u: string): string
    requires u != ""
  {
    if HeadKind(u).LineComment? || HeadKind(u).BlockComment? then "" else u[..HeadLen(u)]
  }

  /** One turn of the loop of `code_of`: where it goes on, and what it appends. */
  method CopySegment(text: string, index: nat) returns (end: nat, kept: string)
    requires index < |text|
    ensures end == index + HeadLen(text[index..]) && kept == Kept(text[index..])
  {
    hide HeadLen, HeadKind, BlockLen, QuoteLen, RawLen, OpensRaw, OpensLifetime, Find;
    var c := text[index];
    HeadAt(text, index);
    kept := "";
    if At(text, index, '/', '/') {
      end := index + match Find(text[index..], "\n") case None => |text| - index case Some(n) => n;
    } else if At(text, index, '/', '*') {
      end := SkipBlockComment(text, index);
    } else if c == 'r' && OpensRaw(text[index..]) {
      end := index + RawLen(text[index..]);
      kept := text[index..end];
      Slice(text, index, end);
    } else if c == '\'' && OpensLifetime(text[index..]) {
      kept, end := "'", index + 1;
      assert text[index..][..1] == kept;
    } else if c == '"' || c == '\'' {
      var scan := SkipQuoted(text, index);
      end := if scan <= |text| then scan else |text|;
      kept := text[index..end];
      Slice(text, index, end);
    } else {
      kept, end := [c], index + 1;
      assert text[index..][..1] == kept;
    }
  }

  /** `code_of`. A body that cannot be read makes it panic the way `body_of` does. */
  method CodeOf(source: string, signature: string) returns (body: Probe, code: string)
    ensures body == Expected(source, signature)
    ensures body.Body? ==> code == WithoutComments(Segments(body.text))
  {
    hide Expected, Segments, HeadLen, HeadKind, Kept;
    code := "";
    body := BodyOf(source, signature);
    if !body.Body? {
      return;
    }
    var text := body.text;
    var index := 0;
    while index < |text|
      invariant index <= |text|
      invariant code + WithoutComments(Segments(text[index..])) == WithoutComments(Segments(text))
    {
      StripHead(text, index, code);
      var end, kept := CopySegment(text, index);
      index, code := end, code + kept;
    }
    StripEnd(text, index);
  }

  /** One segment further: a comment adds nothing to the code, any other segment adds itself. */
  lemma StripHead(text: string, index: nat, code: string)
    requires index < |text|
    ensures var u := text[index..];
      code + WithoutComments(Segments(u)) == code + Kept(u) + WithoutComments(Segments(text[index + HeadLen(u)..]))
  {
    hide HeadLen, HeadKind, Segments;
    var u := text[index..];
    var n := HeadLen(u);
    assert u[n..] == text[index + n..];
    SegmentsHead(u);
    StripOne(Segment(HeadKind(u), u[..n]), Segments(u[n..]), code);
  }

  lemma StripOne(head: Segment, tail: seq<Segment>, code: string)
    ensures var kept := if head.kind.LineComment? || head.kind.BlockComment? then "" else head.text;
      code + WithoutComments([head] + tail) == code + kept + WithoutComments(tail)
  {
    assert ([head] + tail)[1..] == tail;
  }

  lemma StripEnd(text: string, index: nat)
    requires index == |text|
    ensures WithoutComments(Segments(text[index..])) == ""
  {
  }

  // ----- What the two scanners agree on -----

  /** The segments of `body` are segments of `text`, and outside comments and literals the braces of
      `body` stay open until its very last character. */
  ghost predicate BalancedPrefix(body: string, text: string) {
    var segs := Segments(body);
    && body <= text
    && segs <= Segments(text) && Join(segs) == body
    && segs != [] && segs[|segs| - 1] == Segment(Plain, "}")
    && Depth(segs) == 0
    && forall k :: 0 < k < |segs| ==> Depth(segs[..k]) > 0
  }

  lemma CloseIsBalancedPrefix(text: string, n: nat)
    requires text != "" && text[0] == '{' && CloseLen(text, 0) == Some(n)
    ensures BalancedPrefix(text[..n], text)
  {
    hide CloseLen, Segments, HeadLen, HeadKind;
    CloseIsBalanced(text, 0, n);
    ClosesAtEndMeans(Segments(text[..n]), 0);
    SegmentsJoin(text[..n]);
  }

  /** Every body `body_of` returns is cut, on its own, into the same segments it is cut into inside the
      whole source, and it ends at the brace that balances its first one. */
  lemma BodyIsBalanced(source: string, signature: string)
    requires Expected(source, signature).Body?
    ensures ItemText(source, signature).Some?
    ensures BalancedPrefix(Expected(source, signature).text, ItemText(source, signature).value)
  {
    hide Declaration, Find, CloseLen, BalancedPrefix;
    var text := ItemText(source, signature).value;
    CloseIsBalancedPrefix(text, CloseLen(text, 0).value);
  }

  /** `body_of` gives up on an item exactly when no prefix of its segments balances. */
  lemma NotClosedMeans(source: string, signature: string)
    requires ItemText(source, signature).Some?
    ensures Expected(source, signature).NotClosed? <==>
      var segs := Segments(ItemText(source, signature).value);
      forall k :: 0 < k <= |segs| ==> Depth(segs[..k]) > 0
  {
    hide Declaration, Find, CloseLen, Segments;
    var text := ItemText(source, signature).value;
    var segs := Segments(text);
    if CloseLen(text, 0).None? {
      forall k | 0 < k <= |segs| ensures Depth(segs[..k]) > 0 {
        NeverCloses(text, 0, k);
      }
    } else {
      var n := CloseLen(text, 0).value;
      CloseIsBalanced(text, 0, n);
      var own := Segments(text[..n]);
      ClosesAtEndMeans(own, 0);
      assert segs[..|own|] == own;
      assert Depth(segs[..|own|]) == 0;
    }
  }

  // ----- The item's own brace -----

  /** Where the first brace outside comments and literals opens. */
  function OwnBrace(segs: seq<Segment>): Option<nat> {
    if segs == [] then None
    else if segs[0] == Segment(Plain, "{") then Some(0)
    else match OwnBrace(segs[1..]) case None => None case Some(n) => Some(|segs[0].text| + n)
  }

  /** No comment or literal before that brace holds a brace of its own. */
  predicate CleanHeader(segs: seq<Segment>) {
    segs != [] && segs[0] != Segment(Plain, "{") ==> '{' !in segs[0].text && CleanHeader(segs[1..])
  }

  lemma {:induction false} FindBehind(u: string, n: nat)
    requires n <= |u| && forall i :: 0 <= i < n ==> u[i] != '{'
    ensures Find(u, "{") == match Find(u[n..], "{") case None => None case Some(k) => Some(n + k)
  {
    if n == 0 {
      assert u[0..] == u;
    } else {
      assert u[n..] == u[1..][n - 1..];
      FindBehind(u[1..], n - 1);
      assert u[0] != '{';
    }
  }

  lemma HeadBrace(u: string)
    requires u != ""
    ensures Segment(HeadKind(u), u[..HeadLen(u)]) == Segment(Plain, "{") <==> u[0] == '{'
  {
    hide HeadKind, HeadLen;
    if u[0] == '{' {
      PlainHead(u);
    } else {
      assert u[..HeadLen(u)][0] == u[0];
    }
  }

  lemma OwnNext(head: Segment, tail: seq<Segment>)
    requires head != Segment(Plain, "{")
    ensures OwnBrace([head] + tail) == match OwnBrace(tail) case None => None case Some(n) => Some(|head.text| + n)
    ensures CleanHeader([head] + tail) <==> '{' !in head.text && CleanHeader(tail)
  {
    assert ([head] + tail)[1..] == tail;
  }

  lemma OwnNow(u: string)
    requires u != "" && u[0] == '{'
    ensures Find(u, "{") == Some(0) && OwnBrace(Segments(u)) == Some(0) && CleanHeader(Segments(u))
  {
    hide Segments;
    SegmentsHead(u);
    HeadBrace(u);
  }

  /** A search for the first brace character finds the first brace that is one exactly when no comment or
      literal before it holds a brace. */
  lemma {:induction false} FirstIsOwn(u: string)
    ensures Find(u, "{") == OwnBrace(Segments(u)) <==> CleanHeader(Segments(u))
    decreases |u|
  {
    hide Find, OwnBrace, CleanHeader, Segments, HeadKind, HeadLen;
    if u == "" {
      NothingOwned();
    } else if u[0] == '{' {
      OwnNow(u);
    } else {
      var n := HeadLen(u);
      var head, tail := Segment(HeadKind(u), u[..n]), Segments(u[n..]);
      SegmentsHead(u);
      HeadBrace(u);
      OwnNext(head, tail);
      if '{' in head.text {
        var i :| 0 <= i < n && u[i] == '{';
        assert "{" <= u[i..];
        FindIsFirst(u, "{", i);
      } else {
        assert forall i :: 0 <= i < n ==> u[i] == head.text[i];
        FindBehind(u, n);
        FirstIsOwn(u[n..]);
      }
    }
  }

  lemma NothingOwned()
    ensures Find("", "{") == None == OwnBrace(Segments("")) && CleanHeader(Segments(""))
  {
  }

  /** So `body_of` reads the item's own body, or rightly says there is none, exactly when no comment or
      literal between the declaration and that body holds a brace. */
  lemma BodyIsItsOwn(source: string, signature: string, start: nat)
    requires Declaration(source, signature, 0) == Some(start)
    ensures var rest := source[start..];
      var own := OwnBrace(Segments(rest));
      && (own.Some? ==> own.value <= |rest|)
      && (ItemText(source, signature) == (match own case None => None case Some(n) => Some(rest[n..]))
          <==> CleanHeader(Segments(rest)))
  {
    hide Declaration, Find, OwnBrace, CleanHeader, Segments;
    var rest := source[start..];
    FirstIsOwn(rest);
    OwnWithin(rest);
  }

  lemma {:induction false} OwnWithin(u: string)
    ensures OwnBrace(Segments(u)).Some? ==> OwnBrace(Segments(u)).value < |u|
    decreases |u|
  {
    hide Segments, HeadKind, HeadLen;
    if u == "" {
      NoSegments();
    } else {
      SegmentsHead(u);
      OwnWithin(u[HeadLen(u)..]);
    }
  }

  /** An input on which it does not: the brace in the comment is taken for the body's, which then never
      closes, although the item has the body `{}`. */
  lemma BraceInComment()
    ensures var source := "f/*{*/{}";
      && Declaration(source, "f", 0) == Some(0) && OwnBrace(Segments(source)) == Some(6)
      && CloseLen(source[6..], 0) == Some(2) && Expected(source, "f") == NotClosed
  {
    hide Segments, HeadKind, HeadLen, Find, CloseLen, Expected, OwnBrace, Declaration;
    var source := "f/*{*/{}";
    DeclaredAtStart(source, "f");
    OwnSix(source);
    ClosesInTwo(source[6..]);
    FindBehind(source, 3);
    OpenHere(source[3..]);
    assert source[0..] == source;
    ExpectedFrom(source, "f", 0, 3);
    ExpectedBody(source, "f", source[3..]);
    StaysOpen(source[3..]);
  }

  lemma DeclaredAtStart(source: string, signature: string)
    requires signature <= source
    ensures Declaration(source, signature, 0) == Some(0)
  {
    assert source[0..] == source && source[0..0] == "";
    assert Find(source, signature) == Some(0);
  }

  lemma OpenHere(u: string)
    requires u != "" && u[0] == '{'
    ensures Find(u, "{") == Some(0)
  {
  }

  lemma OwnSix(u: string)
    requires u == "f/*{*/{}"
    ensures OwnBrace(Segments(u)) == Some(6)
  {
    hide Segments, HeadKind, HeadLen, Find;
    PlainHead(u);
    SegmentsHead(u);
    var v := u[1..];
    BraceComment(v);
    SegmentsHead(v);
    assert v[5..] == u[6..];
    OwnNow(u[6..]);
    OwnNext(Segment(BlockComment, v[..5]), Segments(v[5..]));
    OwnNext(Segment(Plain, u[..1]), Segments(v));
  }

  lemma BraceComment(v: string)
    requires v == "/*{*/{}"
    ensures HeadKind(v) == BlockComment && HeadLen(v) == 5
  {
    hide HeadKind, HeadLen;
    var p := Char('{', End);
    assert Print(End) == "" && Print(p) == "{";
    assert v == "/*" + Print(p) + "*/" + "{}";
    NestedCommentIsOneSegment(p, "{}");
  }

  lemma ClosesInTwo(u: string)
    requires u == "{}"
    ensures CloseLen(u, 0) == Some(2)
  {
    hide HeadLen;
    PlainHead(u);
    assert u[1..] == "}";
    ClosesHere("}");
  }

  lemma StaysOpen(u: string)
    requires u == "{*/{}"
    ensures CloseLen(u, 0) == None
  {
    hide HeadLen;
    PlainHead(u);
    PlainHead(u[1..]);
    SlashHead(u[2..]);
    PlainHead(u[3..]);
    PlainHead(u[4..]);
    assert u[1..][1..] == u[2..] && u[2..][1..] == u[3..] && u[3..][1..] == u[4..] && u[4..][1..] == "";
    assert CloseLen(u[4..], 2) == None;
    assert CloseLen(u[3..], 1) == None;
    assert CloseLen(u[2..], 1) == None;
    assert CloseLen(u[1..], 1) == None;
  }

  lemma SlashHead(u: string)
    requires |u| >= 2 && u[0] == '/' && u[1] != '/' && u[1] != '*'
    ensures HeadLen(u) == 1
  {
  }

  // ----- Block comments nest -----

  /** The inside of a block comment: characters and whole inner comments. */
  datatype Inside = End | Char(c: char, rest: Inside) | Nested(inner: Inside, rest: Inside)

  function Print(p: Inside): string {
    match p
    case End => ""
    case Char(c, rest) => [c] + Print(rest)
    case Nested(inner, rest) => "/*" + Print(inner) + "*/" + Print(rest)
  }

  predicate IsDelimiter(u: string) {
    |u| >= 2 && ((u[0] == '/' && u[1] == '*') || (u[0] == '*' && u[1] == '/'))
  }

  /** No character of `p`, read with the text that follows, starts a comment delimiter. */
  predicate Proper(p: Inside, tail: string) {
    match p
    case End => true
    case Char(c, rest) => !IsDelimiter(Print(p) + tail) && Proper(rest, tail)
    case Nested(inner, rest) => Proper(inner, "*/" + Print(rest) + tail) && Proper(rest, tail)
  }

  lemma BlockHead(u: string, depth: nat)
    requires |u| >= 2 && depth > 0
    ensures BlockLen(u, depth) ==
      if At(u, 0, '/', '*') then 2 + BlockLen(u[2..], depth + 1)
      else if At(u, 0, '*', '/') then 2 + BlockLen(u[2..], depth - 1)
      else 1 + BlockLen(u[1..], depth)
  {
  }

  lemma {:induction false} BlockSkipsWhole(p: Inside, tail: string, depth: nat)
    requires depth > 0 && |tail| != 1 && Proper(p, tail)
    ensures BlockLen(Print(p) + tail, depth) == |Print(p)| + BlockLen(tail, depth)
    decreases p
  {
    hide BlockLen;
    var u := Print(p) + tail;
    match p
    case End =>
      assert u == tail;
    case Char(c, rest) =>
      assert u[1..] == Print(rest) + tail;
      BlockSkipsWhole(rest, tail, depth);
      if |u| >= 2 {
        BlockHead(u, depth);
      } else {
        NothingToClose(depth);
        LoneCharacter(u, depth);
      }
    case Nested(inner, rest) =>
      var closing := "*/" + Print(rest) + tail;
      BlockSkipsWhole(inner, closing, depth + 1);
      BlockSkipsWhole(rest, tail, depth);
      assert closing == "*/" + (Print(rest) + tail);
      SkipsNested(Print(inner), Print(rest) + tail, depth);
      assert u == "/*" + Print(inner) + "*/" + (Print(rest) + tail);
  }

  lemma NothingToClose(depth: nat)
    ensures BlockLen("", depth) == 0
  {
  }

  lemma LoneCharacter(u: string, depth: nat)
    requires |u| == 1 && depth > 0
    ensures BlockLen(u, depth) == 1
  {
  }

  lemma SkipsNested(inner: string, after: string, depth: nat)
    requires depth > 0
    requires BlockLen(inner + ("*/" + after), depth + 1) == |inner| + BlockLen("*/" + after, depth + 1)
    ensures BlockLen("/*" + inner + "*/" + after, depth) == |inner| + 4 + BlockLen(after, depth)
  {
    hide BlockLen;
    var u, closing := "/*" + inner + "*/" + after, "*/" + after;
    BlockHead(u, depth);
    assert u[2..] == inner + closing;
    BlockHead(closing, depth + 1);
    assert closing[2..] == after;
  }

  /** A nested comment is one segment, whatever stands behind it. */
  lemma NestedCommentIsOneSegment(p: Inside, behind: string)
    requires Proper(p, "*/" + behind)
    ensures var u := "/*" + Print(p) + "*/" + behind;
      HeadKind(u) == BlockComment && HeadLen(u) == |Print(p)| + 4
  {
    hide BlockLen, Print, Proper, HeadKind, HeadLen;
    var u, tail := "/*" + Print(p) + "*/" + behind, "*/" + behind;
    assert u[2..] == Print(p) + tail;
    BlockSkipsWhole(p, tail, 1);
    BlockHead(tail, 1);
    BlockOver(tail[2..]);
    BlockOpens(u);
  }

  lemma BlockOver(u: string)
    ensures BlockLen(u, 0) == 0
  {
  }

  lemma BlockOpens(u: string)
    requires At(u, 0, '/', '*')
    ensures HeadKind(u) == BlockComment && HeadLen(u) == 2 + BlockLen(u[2..], 1)
  {
    hide BlockLen;
  }

  // ----- Line comments, literals and lifetimes -----

  /** A line comment is one segment and stops short of its newline. */
  lemma LineCommentIsOneSegment(body: string, behind: string)
    requires '\n' !in body && (behind == "" || behind[0] == '\n')
    ensures var u := "//" + body + behind;
      HeadKind(u) == LineComment && HeadLen(u) == |body| + 2
  {
    var u, n := "//" + body + behind, |body| + 2;
    FindNewline(u, n);
  }

  lemma {:induction false} FindNewline(u: string, n: nat)
    requires n <= |u| && (forall i :: 0 <= i < n ==> u[i] != '\n') && (n < |u| ==> u[n] == '\n')
    ensures LineLen(u) == n
  {
    if n > 0 {
      FindNewline(u[1..], n - 1);
      assert u[0] != '\n';
    } else if u != "" {
      assert "\n" <= u;
    }
  }

  /** The content of a quoted literal: plain characters and escaped ones. */
  datatype Quoted = Finished | Bare(c: char, rest: Quoted) | Escaped(c: char, rest: Quoted)

  function PrintQuoted(q: Quoted): string {
    match q
    case Finished => ""
    case Bare(c, rest) => [c] + PrintQuoted(rest)
    case Escaped(c, rest) => ['\\', c] + PrintQuoted(rest)
  }

  predicate ProperQuoted(q: Quoted, quote: char) {
    match q
    case Finished => true
    case Bare(c, rest) => c != quote && c != '\\' && ProperQuoted(rest, quote)
    case Escaped(_, rest) => ProperQuoted(rest, quote)
  }

  lemma {:induction false} QuoteSkipsContent(q: Quoted, quote: char, behind: string)
    requires quote != '\\' && ProperQuoted(q, quote)
    ensures QuoteLen(PrintQuoted(q) + [quote] + behind, quote) == |PrintQuoted(q)| + 1
    decreases q
  {
    var u := PrintQuoted(q) + [quote] + behind;
    match q
    case Finished =>
    case Bare(c, rest) =>
      assert u[1..] == PrintQuoted(rest) + [quote] + behind;
      QuoteSkipsContent(rest, quote, behind);
    case Escaped(c, rest) =>
      assert u[2..] == PrintQuoted(rest) + [quote] + behind;
      QuoteSkipsContent(rest, quote, behind);
  }

  predicate StartsIdentifier(c: char) {
    'a' <= c <= 'z' || 'A' <= c <= 'Z' || c == '_'
  }

  /** Between apostrophes: anything but a text that starts like an identifier and has more than one character. */
  predicate IsCharacter(q: Quoted) {
    q.Bare? && StartsIdentifier(q.c) ==> q.rest.Finished?
  }

  /** A quoted literal is one segment: an escaped quote does not end it, the first bare one does. Between
      apostrophes this holds of character literals, escaped ones included, and of nothing else. */
  lemma QuotedIsOneSegment(q: Quoted, quote: char, behind: string)
    requires (quote == '"' || quote == '\'') && ProperQuoted(q, quote)
    ensures var u := [quote] + PrintQuoted(q) + [quote] + behind;
      if quote == '"' || IsCharacter(q) then HeadKind(u) == Literal && HeadLen(u) == |PrintQuoted(q)| + 2
      else HeadKind(u) == Plain && HeadLen(u) == 1
  {
    hide QuoteLen, HeadKind, HeadLen;
    var u := [quote] + PrintQuoted(q) + [quote] + behind;
    assert u[1..] == PrintQuoted(q) + [quote] + behind;
    QuoteSkipsContent(q, quote, behind);
    QuoteHead(u);
    if quote == '\'' {
      SecondCharacters(q, behind);
    }
  }

  lemma QuoteHead(u: string)
    requires u != "" && (u[0] == '"' || u[0] == '\'')
    ensures if u[0] == '\'' && OpensLifetime(u) then HeadKind(u) == Plain && HeadLen(u) == 1
            else HeadKind(u) == Literal && HeadLen(u) == 1 + QuoteLen(u[1..], u[0])
  {
    hide QuoteLen;
  }

  lemma SecondCharacters(q: Quoted, behind: string)
    requires ProperQuoted(q, '\'')
    ensures OpensLifetime(['\''] + PrintQuoted(q) + ['\''] + behind) <==> !IsCharacter(q)
  {
    var u := ['\''] + PrintQuoted(q) + ['\''] + behind;
    match q
    case Finished => assert u[1] == '\'';
    case Escaped(c, rest) => assert u[1] == '\\';
    case Bare(c, rest) =>
      assert PrintQuoted(q) == [c] + PrintQuoted(rest);
      assert u[1] == c;
      match rest
      case Finished => assert u[2] == '\'';
      case Escaped(d, _) => assert u[2] == '\\';
      case Bare(d, _) => assert u[2] == d;
  }

  /** `'a` is a lifetime unless the next character closes it: then it is a character literal. */
  lemma LifetimeOrCharacter(c: char, rest: string)
    requires 'a' <= c <= 'z' || 'A' <= c <= 'Z' || c == '_'
    ensures var u := ['\'', c] + rest;
      if rest != "" && rest[0] == '\'' then HeadKind(u) == Literal && HeadLen(u) == 3
      else HeadKind(u) == Plain && HeadLen(u) == 1
  {
    hide QuoteLen, HeadKind, HeadLen;
    var u := ['\'', c] + rest;
    QuoteHead(u);
    if rest != "" && rest[0] == '\'' {
      var q := Bare(c, Finished);
      assert PrintQuoted(q) == [c] + PrintQuoted(Finished);
      assert u == ['\''] + PrintQuoted(q) + ['\''] + rest[1..];
      QuotedIsOneSegment(q, '\'', rest[1..]);
    }
  }

  lemma {:induction false} HashesCounts(h: nat, behind: string)
    requires behind != "" && behind[0] != '#'
    ensures Hashes(seq(h, _ => '#') + behind) == h
  {
    var u := seq(h, _ => '#') + behind;
    if h > 0 {
      assert u[1..] == seq(h - 1, _ => '#') + behind;
      HashesCounts(h - 1, behind);
    }
  }

  lemma RawHead(u: string, h: nat, n: nat)
    requires 2 + h <= |u| && u[0] == 'r' && Hashes(u[1..]) == h && u[1 + h] == '"'
    requires Find(u[2 + h..], Terminator(h)) == Some(n)
    ensures HeadKind(u) == Literal && HeadLen(u) == n + 2 * h + 3
  {
    hide Find, Hashes;
  }

  lemma RawSlices(hashes: string, rest: string)
    ensures var u := "r" + hashes + "\"" + rest;
      && u[0] == 'r' && u[1..] == hashes + ("\"" + rest)
      && u[1 + |hashes|] == '"' && u[2 + |hashes|..] == rest
  {
  }

  /** What ends a raw string: a quote and as many hashes as it began with. */
  function Ending(hashes: nat): string {
    "\"" + seq(hashes, _ => '#')
  }

  lemma EndingIsTerminator(hashes: nat)
    ensures Ending(hashes) == Terminator(hashes)
  {
  }

  /** A raw string is one segment: it ends at the first quote followed by its own number of hashes. */
  lemma RawStringIsOneSegment(h: nat, content: string, behind: string)
    requires Find(content + Ending(h), Ending(h)) == Some(|content|)
    ensures var u := "r" + seq(h, _ => '#') + "\"" + (content + Ending(h) + behind);
      HeadKind(u) == Literal && HeadLen(u) == |content| + 2 * h + 3
  {
    hide Find, Hashes, HeadKind, HeadLen, Ending, Terminator;
    EndingIsTerminator(h);
    var rest := content + Ending(h) + behind;
    RawSlices(seq(h, _ => '#'), rest);
    HashesCounts(h, "\"" + rest);
    FindExtends(content + Ending(h), Ending(h), behind);
    RawHead("r" + seq(h, _ => '#') + "\"" + rest, h, |content|);
  }

  /** One that never ends takes the rest of the text, ... */
  lemma OpenRawTakesTheRest(h: nat, content: string)
    requires Find(content, Ending(h)).None?
    ensures var u := "r" + seq(h, _ => '#') + "\"" + content; HeadKind(u) == Literal && HeadLen(u) == |u|
  {
    hide Find, Hashes, HeadKind, HeadLen, Ending, Terminator;
    EndingIsTerminator(h);
    RawSlices(seq(h, _ => '#'), content);
    HashesCounts(h, "\"" + content);
    OpenRawHead("r" + seq(h, _ => '#') + "\"" + content, h);
  }

  lemma OpenRawHead(u: string, h: nat)
    requires 2 + h <= |u| && u[0] == 'r' && Hashes(u[1..]) == h && u[1 + h] == '"'
    requires Find(u[2 + h..], Terminator(h)).None?
    ensures HeadKind(u) == Literal && HeadLen(u) == |u|
  {
    hide Find, Hashes;
  }

  /** ... and so does a literal without its closing quote, even if it ends in a backslash, ... */
  lemma OpenQuoteTakesTheRest(q: Quoted, last: string)
    requires ProperQuoted(q, '"') && (last == "" || last == "\\")
    ensures var u := "\"" + PrintQuoted(q) + last; HeadKind(u) == Literal && HeadLen(u) == |u|
  {
    hide QuoteLen, HeadKind, HeadLen;
    var u := "\"" + PrintQuoted(q) + last;
    assert u[1..] == PrintQuoted(q) + last;
    QuoteRunsOut(q, last);
    QuoteHead(u);
  }

  lemma {:induction false} QuoteRunsOut(q: Quoted, last: string)
    requires ProperQuoted(q, '"') && (last == "" || last == "\\")
    ensures QuoteLen(PrintQuoted(q) + last, '"') == |PrintQuoted(q)| + |last|
    decreases q
  {
    var u := PrintQuoted(q) + last;
    match q
    case Finished => assert u == last;
    case Bare(c, rest) =>
      assert u[1..] == PrintQuoted(rest) + last;
      QuoteRunsOut(rest, last);
    case Escaped(c, rest) =>
      assert u[2..] == PrintQuoted(rest) + last;
      QuoteRunsOut(rest, last);
  }

  /** ... and a comment that is not closed. */
  lemma OpenCommentTakesTheRest(p: Inside)
    requires Proper(p, "")
    ensures var u := "/*" + Print(p); HeadKind(u) == BlockComment && HeadLen(u) == |u|
  {
    hide BlockLen, Print, Proper, HeadKind, HeadLen;
    var u := "/*" + Print(p);
    assert u[2..] == Print(p) && Print(p) + "" == Print(p);
    BlockSkipsWhole(p, "", 1);
    NothingToClose(1);
    BlockOpens(u);
  }

  // ----- Written items -----

  /** The hashes and the quote behind the `r` of a raw string. */
  function Opening(hashes: nat): string {
    seq(hashes, _ => '#') + "\""
  }

  /** What a Rust text is written from: comments, literals, and symbols that stand for themselves. */
  datatype Token =
    | Line(body: string)
    | Comment(inside: Inside)
    | Quotation(content: Quoted)
    | Character(content: Quoted)
    | Raw(hashes: nat, text: string)
    | Symbol(c: char)

  function Spell(t: Token): string {
    match t
    case Line(body) => "//" + body
    case Comment(inside) => "/*" + Print(inside) + "*/"
    case Quotation(content) => "\"" + PrintQuoted(content) + "\""
    case Character(content) => "'" + PrintQuoted(content) + "'"
    case Raw(hashes, text) => "r" + Opening(hashes) + (text + Ending(hashes))
    case Symbol(c) => [c]
  }

  /** A symbol that the text behind does not turn into the start of a comment or a literal. */
  ghost predicate Stands(c: char, behind: string) {
    match c
    case '"' => false
    case '/' => behind == "" || (behind[0] != '/' && behind[0] != '*')
    case '\'' => behind != "" && StartsIdentifier(behind[0]) && !(|behind| > 1 && behind[1] == '\'')
    case 'r' => forall hashes: nat :: !(Opening(hashes) <= behind)
    case _ => true
  }

  ghost predicate ProperToken(t: Token, behind: string) {
    match t
    case Line(body) => '\n' !in body && (behind == "" || behind[0] == '\n')
    case Comment(inside) => Proper(inside, "*/" + behind)
    case Quotation(content) => ProperQuoted(content, '"')
    case Character(content) => ProperQuoted(content, '\'') && IsCharacter(content)
    case Raw(hashes, text) => Find(text + Ending(hashes), Ending(hashes)) == Some(|text|)
    case Symbol(c) => Stands(c, behind)
  }

  function KindOf(t: Token): Kind {
    match t
    case Line(_) => LineComment
    case Comment(_) => BlockComment
    case Symbol(_) => Plain
    case _ => Literal
  }

  function SpellAll(tokens: seq<Token>): string {
    if tokens == [] then "" else Spell(tokens[0]) + SpellAll(tokens[1..])
  }

  ghost predicate ProperTokens(tokens: seq<Token>, behind: string) {
    tokens != [] ==> ProperToken(tokens[0], SpellAll(tokens[1..]) + behind) && ProperTokens(tokens[1..], behind)
  }

  function SegmentsOf(tokens: seq<Token>): seq<Segment> {
    if tokens == [] then [] else [Segment(KindOf(tokens[0]), Spell(tokens[0]))] + SegmentsOf(tokens[1..])
  }

  lemma {:induction false} HashesOpen(u: string)
    ensures Hashes(u) < |u| && u[Hashes(u)] == '"' ==> Opening(Hashes(u)) <= u
  {
    if u != "" && u[0] == '#' {
      HashesOpen(u[1..]);
      if Hashes(u) < |u| && u[Hashes(u)] == '"' {
        var h := Hashes(u[1..]);
        assert Opening(h + 1) == "#" + Opening(h);
      }
    } else {
      assert Opening(0) == "\"";
    }
  }

  lemma SymbolIsPlain(c: char, behind: string)
    requires Stands(c, behind)
    ensures HeadKind([c] + behind) == Plain && HeadLen([c] + behind) == 1
  {
    hide Hashes, Opening;
    var u := [c] + behind;
    assert u[1..] == behind;
    if c == 'r' {
      HashesOpen(behind);
    }
  }

  lemma QuotedToken(q: Quoted, quote: char, behind: string)
    requires (quote == '"' || (quote == '\'' && IsCharacter(q))) && ProperQuoted(q, quote)
    ensures var u := [quote] + PrintQuoted(q) + [quote] + behind; HeadKind(u) == Literal && HeadLen(u) == |PrintQuoted(q)| + 2
  {
    hide HeadKind, HeadLen, PrintQuoted;
    QuotedIsOneSegment(q, quote, behind);
  }

  lemma RawToken(hashes: nat, text: string, behind: string)
    requires Find(text + Ending(hashes), Ending(hashes)) == Some(|text|)
    ensures var u := "r" + Opening(hashes) + (text + Ending(hashes)) + behind;
      HeadKind(u) == Literal && HeadLen(u) == |text| + 2 * hashes + 3
  {
    hide HeadKind, HeadLen, Find, Ending;
    RawStringIsOneSegment(hashes, text, behind);
    RawAssoc(seq(hashes, _ => '#'), text + Ending(hashes), behind);
  }

  lemma RawAssoc(hashes: string, rest: string, behind: string)
    ensures "r" + (hashes + "\"") + rest + behind == "r" + hashes + "\"" + (rest + behind)
  {
  }

  /** Every token is one segment of its kind. */
  lemma TokenIsOneSegment(t: Token, behind: string)
    requires ProperToken(t, behind)
    ensures var u := Spell(t) + behind;
      u != "" && HeadKind(u) == KindOf(t) && HeadLen(u) == |Spell(t)|
  {
    hide HeadKind, HeadLen, Print, Proper, PrintQuoted, ProperQuoted, IsCharacter, Find, Stands, Ending, Opening;
    match t
    case Line(body) => LineCommentIsOneSegment(body, behind);
    case Comment(inside) => NestedCommentIsOneSegment(inside, behind);
    case Quotation(content) => QuotedToken(content, '"', behind);
    case Character(content) => QuotedToken(content, '\'', behind);
    case Raw(hashes, text) =>
      RawToken(hashes, text, behind);
      RawWidth(hashes, text);
    case Symbol(c) => SymbolIsPlain(c, behind);
  }

  lemma RawWidth(hashes: nat, text: string)
    ensures |"r" + Opening(hashes) + (text + Ending(hashes))| == |text| + 2 * hashes + 3
  {
  }

  /** A text written from tokens is cut into exactly these tokens. */
  lemma {:induction false} SegmentsAreTokens(tokens: seq<Token>, behind: string)
    requires ProperTokens(tokens, behind)
    ensures Segments(SpellAll(tokens) + behind) == SegmentsOf(tokens) + Segments(behind)
  {
    hide HeadKind, HeadLen, Segments, ProperToken, Spell;
    if tokens == [] {
      assert SpellAll(tokens) + behind == behind;
    } else {
      var later := SpellAll(tokens[1..]) + behind;
      var u := SpellAll(tokens) + behind;
      assert u == Spell(tokens[0]) + later;
      TokenIsOneSegment(tokens[0], later);
      SegmentsHead(u);
      assert u[..|Spell(tokens[0])|] == Spell(tokens[0]) && u[|Spell(tokens[0])|..] == later;
      SegmentsAreTokens(tokens[1..], behind);
    }
  }

  /** The brace depth behind a token. */
  function DepthBehind(t: Token, depth: int): int {
    if t == Symbol('{') then depth + 1 else if t == Symbol('}') then depth - 1 else depth
  }

  /** The braces among the tokens stay open until the last token closes them. */
  ghost predicate Nests(tokens: seq<Token>, depth: int) {
    && tokens != []
    && if |tokens| == 1 then tokens[0] == Symbol('}') && depth == 1
       else DepthBehind(tokens[0], depth) > 0 && Nests(tokens[1..], DepthBehind(tokens[0], depth))
  }

  lemma TokenWeight(t: Token, depth: int)
    ensures depth + Weight(Segment(KindOf(t), Spell(t))) == DepthBehind(t, depth)
  {
    if t.Symbol? {
      assert [t.c] == "{" <==> t.c == '{';
      assert [t.c] == "}" <==> t.c == '}';
    }
  }

  lemma {:induction false} NestingCloses(tokens: seq<Token>, depth: int)
    requires Nests(tokens, depth)
    ensures ClosesAtEnd(SegmentsOf(tokens), depth)
  {
    hide Spell, Weight;
    TokenWeight(tokens[0], depth);
    if |tokens| == 1 {
      ClosingToken();
      assert SegmentsOf(tokens[1..]) == [];
    } else {
      NestingCloses(tokens[1..], DepthBehind(tokens[0], depth));
      ClosesCons(Segment(KindOf(tokens[0]), Spell(tokens[0])), SegmentsOf(tokens[1..]), depth);
    }
  }

  lemma ClosingToken()
    ensures Segment(KindOf(Symbol('}')), Spell(Symbol('}'))) == Segment(Plain, "}")
  {
  }

  /** Segments that close at their end are where the scan stops. */
  lemma {:induction false} ClosesThere(u: string, depth: nat, segs: seq<Segment>)
    requires depth > 0 || (u != "" && u[0] == '{')
    requires segs <= Segments(u) && ClosesAtEnd(segs, depth)
    ensures CloseLen(u, depth) == Some(|Join(segs)|)
  {
    hide HeadKind, HeadLen, Segments, Weight, DepthAfter;
    assert u != "" by { NoSegments(); }
    var n := HeadLen(u);
    var head, tail := Segment(HeadKind(u), u[..n]), Segments(u[n..]);
    SegmentsHead(u);
    assert segs[0] == head;
    assert Join(segs) == head.text + Join(segs[1..]);
    if |segs| == 1 {
      assert u[0] == head.text[0];
      assert Join(segs[1..]) == "";
    } else {
      CloserWeight(u, depth);
      DepthAfterWeight(u, depth);
      assert segs[1..] <= tail;
      ClosesThere(u[n..], DepthAfter(u, depth), segs[1..]);
    }
  }

  lemma CloserWeight(u: string, depth: nat)
    requires u != "" && depth + Weight(Segment(HeadKind(u), u[..HeadLen(u)])) > 0
    ensures !(u[0] == '}' && depth == 1)
  {
    hide HeadKind, HeadLen;
    if u[0] == '}' {
      PlainHead(u);
      assert u[..1] == "}";
    }
  }

  lemma OneClosing(a: seq<Segment>, b: seq<Segment>, s: seq<Segment>)
    requires a <= s && b <= s && ClosesAtEnd(a, 0) && ClosesAtEnd(b, 0)
    ensures a == b
  {
    hide ClosesAtEnd, Depth;
    if |a| <= |b| {
      assert a <= b;
      NoEarlierClosing(a, b);
    } else {
      assert b <= a;
      NoEarlierClosing(b, a);
    }
  }

  lemma NoEarlierClosing(a: seq<Segment>, b: seq<Segment>)
    requires a <= b && ClosesAtEnd(a, 0) && ClosesAtEnd(b, 0)
    ensures a == b
  {
    hide ClosesAtEnd, Depth;
    ClosingIsNotEmpty(a);
    ClosesAtEndMeans(a, 0);
    assert b[..|a|] == a && b[..|b|] == b;
    if |a| < |b| {
      StaysOpenBefore(b, |a|);
    }
  }

  lemma StaysOpenBefore(segs: seq<Segment>, k: nat)
    requires ClosesAtEnd(segs, 0) && 0 < k < |segs|
    ensures Depth(segs[..k]) > 0
  {
    hide ClosesAtEnd, Depth;
    ClosesAtEndMeans(segs, 0);
  }

  lemma ClosingIsNotEmpty(segs: seq<Segment>)
    requires ClosesAtEnd(segs, 0)
    ensures segs != []
  {
  }

  /** The tokens that are no comments. */
  function CodeTokens(tokens: seq<Token>): seq<Token> {
    if tokens == [] then []
    else (if tokens[0].Line? || tokens[0].Comment? then [] else [tokens[0]]) + CodeTokens(tokens[1..])
  }

  lemma {:induction false} CodeIsSpelled(tokens: seq<Token>)
    ensures WithoutComments(SegmentsOf(tokens)) == SpellAll(CodeTokens(tokens))
  {
    hide Spell;
    if tokens != [] {
      CodeIsSpelled(tokens[1..]);
      var later := CodeTokens(tokens[1..]);
      assert ([tokens[0]] + later)[1..] == later && [] + later == later;
      StripOne(Segment(KindOf(tokens[0]), Spell(tokens[0])), SegmentsOf(tokens[1..]), "");
      assert "" + WithoutComments(SegmentsOf(tokens)) == WithoutComments(SegmentsOf(tokens));
    }
  }

  lemma {:induction false} JoinIsSpelled(tokens: seq<Token>)
    ensures Join(SegmentsOf(tokens)) == SpellAll(tokens)
  {
    hide Spell;
    if tokens != [] {
      JoinIsSpelled(tokens[1..]);
    }
  }

  /** An item whose text is written from tokens, with braces that nest, is read through its own closing brace,
      whatever comments and literals it holds and whatever stands behind it; and its code is what the tokens
      other than comments spell. */
  lemma WrittenItemIsRead(source: string, signature: string, tokens: seq<Token>, behind: string)
    requires ProperTokens(tokens, behind) && Nests(tokens, 0)
    requires ItemText(source, signature) == Some(SpellAll(tokens) + behind)
    ensures Expected(source, signature) == Body(SpellAll(tokens))
    ensures WithoutComments(Segments(SpellAll(tokens))) == SpellAll(CodeTokens(tokens))
  {
    hide Declaration, ItemText, CloseLen, Segments, ProperTokens, Nests, ClosesAtEnd, SpellAll;
    var u, segs := SpellAll(tokens) + behind, SegmentsOf(tokens);
    ItemStarts(source, signature);
    SegmentsAreTokens(tokens, behind);
    NestingCloses(tokens, 0);
    ClosesThere(u, 0, segs);
    JoinIsSpelled(tokens);
    var m := |SpellAll(tokens)|;
    assert u[..m] == SpellAll(tokens);
    ExpectedBody(source, signature, u);
    CloseIsBalanced(u, 0, m);
    OneClosing(segs, Segments(u[..m]), Segments(u));
    CodeIsSpelled(tokens);
  }

  lemma ItemStarts(source: string, signature: string)
    requires ItemText(source, signature).Some?
    ensures Declaration(source, signature, 0).Some?
    ensures ItemText(source, signature).value != "" && ItemText(source, signature).value[0] == '{'
  {
    hide Declaration, Find;
  }
}
