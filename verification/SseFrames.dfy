/** The incremental Server-Sent Events splitter `SseFrames`: a buffer and a `scanned` watermark, proved
    against one left-to-right split of the whole stream at blank lines (WHATWG HTML Standard,
    section 9.2.5, restricted to line feeds). */
module SseFrames {
  import opened Text

  type Byte = bv8

  const LF: Byte := 10

  // ----- The reference split -----

  /** The length of `s` through its first pair of line feeds. */
  function FrameEnd(s: seq<Byte>): (r: Option<nat>)
    ensures r.Some? ==> 2 <= r.value <= |s|
  {
    if |s| < 2 then None
    else if s[0] == LF && s[1] == LF then Some(2)
    else match FrameEnd(s[1..]) case None => None case Some(n) => Some(n + 1)
  }

  /** Every complete frame of `s`, terminators included. */
  function Frames(s: seq<Byte>): seq<seq<Byte>> {
    match FrameEnd(s) case None => [] case Some(n) => [s[..n]] + Frames(s[n..])
  }

  /** The unfinished frame behind the last complete one. */
  function Rest(s: seq<Byte>): seq<Byte> {
    match FrameEnd(s) case None => s case Some(n) => Rest(s[n..])
  }

  function Flatten(parts: seq<seq<Byte>>): seq<Byte> {
    if parts == [] then [] else parts[0] + Flatten(parts[1..])
  }

  /** A text that ends at its first pair of line feeds. */
  predicate IsFrame(f: seq<Byte>) {
    FrameEnd(f) == Some(|f|)
  }

  lemma {:induction false} FrameEndExtends(s: seq<Byte>, more: seq<Byte>)
    requires FrameEnd(s).Some?
    ensures FrameEnd(s + more) == FrameEnd(s)
  {
    if !(s[0] == LF && s[1] == LF) {
      FrameEndExtends(s[1..], more);
      assert (s + more)[1..] == s[1..] + more;
    }
  }

  lemma {:induction false} FrameEndTruncates(s: seq<Byte>)
    requires FrameEnd(s).Some?
    ensures IsFrame(s[..FrameEnd(s).value])
  {
    var n := FrameEnd(s).value;
    if !(s[0] == LF && s[1] == LF) {
      FrameEndTruncates(s[1..]);
      assert s[..n][1..] == s[1..][..n - 1];
    }
  }

  /** The split loses nothing and leaves no blank line in the rest ... */
  lemma {:induction false} SplitIsExact(s: seq<Byte>)
    ensures Flatten(Frames(s)) + Rest(s) == s
    ensures FrameEnd(Rest(s)).None?
  {
    hide FrameEnd, Flatten, Frames, Rest;
    SplitHead(s);
    if FrameEnd(s).None? {
      FlattenNothing();
    } else {
      var n := FrameEnd(s).value;
      var first, later := s[..n], Frames(s[n..]);
      SplitIsExact(s[n..]);
      FlattenCons(first, later);
      calc {
        Flatten(Frames(s)) + Rest(s);
        (first + Flatten(later)) + Rest(s[n..]);
        { Assoc(first, Flatten(later), Rest(s[n..])); }
        first + (Flatten(later) + Rest(s[n..]));
        first + s[n..];
        { Rejoin(s, n); }
        s;
      }
    }
  }

  lemma SplitHead(s: seq<Byte>)
    ensures match FrameEnd(s)
      case None => Frames(s) == [] && Rest(s) == s
      case Some(n) => Frames(s) == [s[..n]] + Frames(s[n..]) && Rest(s) == Rest(s[n..])
  {
    hide FrameEnd;
  }

  lemma Rejoin<T>(s: seq<T>, n: nat)
    requires n <= |s|
    ensures s[..n] + s[n..] == s
  {
  }

  /** ... and ends every frame at its first blank line. */
  lemma {:induction false} FramesAreFrames(s: seq<Byte>, i: nat)
    requires i < |Frames(s)|
    ensures IsFrame(Frames(s)[i])
  {
    hide FrameEnd, IsFrame;
    var n := FrameEnd(s).value;
    FrameEndTruncates(s);
    assert Frames(s) == [s[..n]] + Frames(s[n..]);
    if i > 0 {
      FramesAreFrames(s[n..], i - 1);
    }
  }

  lemma FlattenNothing()
    ensures Flatten([]) == []
  {
  }

  lemma FlattenCons(first: seq<Byte>, later: seq<seq<Byte>>)
    ensures Flatten([first] + later) == first + Flatten(later)
  {
    assert ([first] + later)[1..] == later;
  }

  lemma Assoc<T>(a: seq<T>, b: seq<T>, c: seq<T>)
    ensures (a + b) + c == a + (b + c)
  {
  }

  /** And it is the only split that does. */
  lemma {:induction false} SplitIsUnique(frames: seq<seq<Byte>>, rest: seq<Byte>)
    requires forall i :: 0 <= i < |frames| ==> IsFrame(frames[i])
    requires FrameEnd(rest).None?
    ensures Frames(Flatten(frames) + rest) == frames && Rest(Flatten(frames) + rest) == rest
  {
    var s := Flatten(frames) + rest;
    if frames == [] {
      assert s == rest;
    } else {
      var behind := Flatten(frames[1..]) + rest;
      assert s == frames[0] + behind;
      assert IsFrame(frames[0]);
      FrameEndExtends(frames[0], behind);
      assert s[..|frames[0]|] == frames[0] && s[|frames[0]|..] == behind;
      SplitIsUnique(frames[1..], rest);
    }
  }

  /** Bytes that arrive later are split as if they had been appended to the unfinished frame alone. */
  lemma {:induction false} SplitResumes(s: seq<Byte>, more: seq<Byte>)
    ensures Frames(s + more) == Frames(s) + Frames(Rest(s) + more)
    ensures Rest(s + more) == Rest(Rest(s) + more)
  {
    hide FrameEnd, Frames, Rest;
    SplitHead(s);
    SplitHead(s + more);
    if FrameEnd(s).Some? {
      var n := FrameEnd(s).value;
      FrameEndExtends(s, more);
      assert (s + more)[..n] == s[..n] && (s + more)[n..] == s[n..] + more;
      SplitResumes(s[n..], more);
      Assoc([s[..n]], Frames(s[n..]), Frames(Rest(s) + more));
    } else {
      assert [] + Frames(s + more) == Frames(s + more);
    }
  }

  // ----- One push -----

  datatype Frame = Frame(bytes: seq<Byte>, text: seq<Byte>)

  datatype PushError = NotUtf8 | OverCap

  datatype Outcome = Accepted(frames: seq<Frame>) | Refused(error: PushError)

  /** What draining a buffer gives: the frames taken, what is left, and whether a frame was not UTF-8. */
  datatype Drained = Drained(frames: seq<Frame>, rest: seq<Byte>, bad: bool)

  function Drain(buffer: seq<Byte>, utf8: seq<Byte> -> bool): Drained
    decreases |buffer|
  {
    match FrameEnd(buffer)
    case None => Drained([], buffer, false)
    case Some(n) =>
      if !utf8(buffer[..n - 2]) then Drained([], buffer[n..], true)
      else
        var d := Drain(buffer[n..], utf8);
        d.(frames := [Frame(buffer[..n], buffer[..n - 2])] + d.frames)
  }

  function Answer(d: Drained, cap: nat): Outcome {
    if d.bad then Refused(NotUtf8) else if |d.rest| > cap then Refused(OverCap) else Accepted(d.frames)
  }

  function BytesOf(frames: seq<Frame>): seq<seq<Byte>> {
    seq(|frames|, i requires 0 <= i < |frames| => frames[i].bytes)
  }

  ghost predicate AllUtf8(frames: seq<seq<Byte>>, utf8: seq<Byte> -> bool) {
    forall i :: 0 <= i < |frames| && |frames[i]| >= 2 ==> utf8(frames[i][..|frames[i]| - 2])
  }

  /** Draining is the reference split, cut short by the first frame that is not UTF-8. */
  ghost predicate IsSplitOf(d: Drained, buffer: seq<Byte>, utf8: seq<Byte> -> bool) {
    var taken, all := BytesOf(d.frames), Frames(buffer);
    if d.bad then
      // The refused frame is drained too, and is the first that is not UTF-8.
      && |taken| < |all| && taken == all[..|taken|] && AllUtf8(taken, utf8)
      && !AllUtf8([all[|taken|]], utf8)
      && Flatten(taken) + all[|taken|] + d.rest == buffer
    else
      taken == all && AllUtf8(all, utf8) && d.rest == Rest(buffer)
  }

  lemma {:induction false} DrainIsSplit(buffer: seq<Byte>, utf8: seq<Byte> -> bool)
    ensures IsSplitOf(Drain(buffer, utf8), buffer, utf8)
    decreases |buffer|
  {
    hide FrameEnd, Frames, Rest, Drain, IsSplitOf;
    DrainHead(buffer, utf8);
    match FrameEnd(buffer)
    case None => DrainNothing(buffer, utf8);
    case Some(n) =>
      if utf8(buffer[..n][..n - 2]) {
        DrainIsSplit(buffer[n..], utf8);
        DrainOneMore(buffer, Drain(buffer[n..], utf8), Frame(buffer[..n], buffer[..n][..n - 2]), utf8);
      } else {
        DrainBad(buffer, n, utf8);
      }
  }

  lemma DrainNothing(buffer: seq<Byte>, utf8: seq<Byte> -> bool)
    requires FrameEnd(buffer).None?
    ensures IsSplitOf(Drained([], buffer, false), buffer, utf8)
  {
    hide FrameEnd, Frames, Rest;
    SplitHead(buffer);
  }

  lemma DrainBad(buffer: seq<Byte>, n: nat, utf8: seq<Byte> -> bool)
    requires FrameEnd(buffer) == Some(n) && !utf8(buffer[..n][..n - 2])
    ensures IsSplitOf(Drained([], buffer[n..], true), buffer, utf8)
  {
    hide FrameEnd, Frames, Rest;
    SplitHead(buffer);
    var first := buffer[..n];
    assert !AllUtf8([first], utf8) by { assert [first][0] == first; }
    FlattenNothing();
    Rejoin(buffer, n);
    assert [] + first == first;
  }

  lemma DrainOneMore(buffer: seq<Byte>, d: Drained, f: Frame, utf8: seq<Byte> -> bool)
    requires FrameEnd(buffer) == Some(|f.bytes|) && f.bytes == buffer[..|f.bytes|]
    requires IsSplitOf(d, buffer[|f.bytes|..], utf8) && utf8(f.bytes[..|f.bytes| - 2])
    ensures IsSplitOf(d.(frames := [f] + d.frames), buffer, utf8)
  {
    hide FrameEnd, Frames, Rest, AllUtf8, Flatten;
    SplitHead(buffer);
    var behind := buffer[|f.bytes|..];
    var taken, all := BytesOf(d.frames), Frames(behind);
    assert BytesOf([f] + d.frames) == [f.bytes] + taken;
    UtfCons(f.bytes, taken, utf8);
    if d.bad {
      var k := |taken|;
      assert ([f.bytes] + all)[..k + 1] == [f.bytes] + taken;
      assert ([f.bytes] + all)[k + 1] == all[k];
      FlattenCons(f.bytes, taken);
      Assoc(f.bytes, Flatten(taken), all[k]);
      Assoc(f.bytes, Flatten(taken) + all[k], d.rest);
      Rejoin(buffer, |f.bytes|);
    }
  }

  lemma UtfCons(first: seq<Byte>, frames: seq<seq<Byte>>, utf8: seq<Byte> -> bool)
    requires |first| >= 2 && utf8(first[..|first| - 2]) && AllUtf8(frames, utf8)
    ensures AllUtf8([first] + frames, utf8)
  {
  }

  lemma {:induction false} DrainTexts(buffer: seq<Byte>, utf8: seq<Byte> -> bool, i: nat)
    requires i < |Drain(buffer, utf8).frames|
    ensures var f := Drain(buffer, utf8).frames[i]; f.text + [10, 10] == f.bytes
    decreases |buffer|
  {
    hide FrameEnd;
    EndsWithBlankLine(buffer);
    if i > 0 {
      DrainTexts(buffer[FrameEnd(buffer).value..], utf8, i - 1);
    }
  }

  lemma {:induction false} EndsWithBlankLine(s: seq<Byte>)
    requires FrameEnd(s).Some?
    ensures var n := FrameEnd(s).value; s[..n - 2] + [LF, LF] == s[..n]
  {
    var n := FrameEnd(s).value;
    if !(s[0] == LF && s[1] == LF) {
      EndsWithBlankLine(s[1..]);
      assert s[1..][..n - 1][n - 2] == s[n - 1] && s[1..][..n - 1][n - 3] == s[n - 2];
    }
  }

  /** How a push ends: as not UTF-8 exactly when one of the frames that are complete is not, over the cap
      exactly when they all are and the unfinished frame is longer, and else with all of these frames. */
  lemma AnswerMeans(buffer: seq<Byte>, cap: nat, utf8: seq<Byte> -> bool)
    ensures var r := Answer(Drain(buffer, utf8), cap);
      && (r == Refused(NotUtf8) <==> !AllUtf8(Frames(buffer), utf8))
      && (r == Refused(OverCap) <==> AllUtf8(Frames(buffer), utf8) && |Rest(buffer)| > cap)
      && (r.Accepted? ==> BytesOf(r.frames) == Frames(buffer) && Drain(buffer, utf8).rest == Rest(buffer))
  {
    hide Drain, Frames, Rest, AllUtf8;
    DrainIsSplit(buffer, utf8);
    BadFrame(Drain(buffer, utf8), buffer, utf8);
  }

  // ----- Any way of cutting the stream -----

  /** The frames and the rest after pushing `chunks` one by one, if every push is accepted. */
  function Feed(buffer: seq<Byte>, chunks: seq<seq<Byte>>, cap: nat, utf8: seq<Byte> -> bool): Option<(seq<Frame>, seq<Byte>)>
    decreases |chunks|
  {
    if chunks == [] then Some(([], buffer))
    else
      var d := Drain(buffer + chunks[0], utf8);
      match Answer(d, cap)
      case Refused(_) => None
      case Accepted(frames) =>
        match Feed(d.rest, chunks[1..], cap, utf8)
        case None => None
        case Some(later) => Some((frames + later.0, later.1))
  }

  lemma {:induction false} FeedIsSplit(s: seq<Byte>, chunks: seq<seq<Byte>>, cap: nat, utf8: seq<Byte> -> bool)
    requires Feed(Rest(s), chunks, cap, utf8).Some?
    ensures var (frames, rest) := Feed(Rest(s), chunks, cap, utf8).value;
      var stream := s + Flatten(chunks);
      Frames(s) + BytesOf(frames) == Frames(stream) && rest == Rest(stream)
    decreases |chunks|
  {
    hide FrameEnd, Drain, Frames, Rest;
    if chunks == [] {
      assert s + Flatten(chunks) == s;
      assert Frames(s) + BytesOf([]) == Frames(s);
    } else {
      var d := Drain(Rest(s) + chunks[0], utf8);
      DrainIsSplit(Rest(s) + chunks[0], utf8);
      SplitResumes(s, chunks[0]);
      var seen := s + chunks[0];
      FeedIsSplit(seen, chunks[1..], cap, utf8);
      var later := Feed(d.rest, chunks[1..], cap, utf8).value.0;
      Assoc(s, chunks[0], Flatten(chunks[1..]));
      assert BytesOf(d.frames + later) == BytesOf(d.frames) + BytesOf(later);
      Assoc(Frames(s), BytesOf(d.frames), BytesOf(later));
    }
  }

  /** However the network cuts the stream, the accepted pushes give the split of the whole stream. */
  lemma ChunkingIsInvisible(chunks: seq<seq<Byte>>, cap: nat, utf8: seq<Byte> -> bool)
    requires Feed([], chunks, cap, utf8).Some?
    ensures var (frames, rest) := Feed([], chunks, cap, utf8).value;
      && BytesOf(frames) == Frames(Flatten(chunks))
      && rest == Rest(Flatten(chunks))
      && Flatten(BytesOf(frames)) + rest == Flatten(chunks)
  {
    FeedIsSplit([], chunks, cap, utf8);
    assert [] + Flatten(chunks) == Flatten(chunks);
    var (frames, rest) := Feed([], chunks, cap, utf8).value;
    assert Frames([]) + BytesOf(frames) == BytesOf(frames);
    SplitIsExact(Flatten(chunks));
  }

  /** After each chunk the unfinished frame is within the cap. */
  ghost predicate WithinCap(s: seq<Byte>, chunks: seq<seq<Byte>>, cap: nat)
    decreases |chunks|
  {
    chunks == [] || (|Rest(s + chunks[0])| <= cap && WithinCap(s + chunks[0], chunks[1..], cap))
  }

  lemma {:induction false} FeedAccepts(s: seq<Byte>, chunks: seq<seq<Byte>>, cap: nat, utf8: seq<Byte> -> bool)
    requires AllUtf8(Frames(s), utf8)
    ensures Feed(Rest(s), chunks, cap, utf8).Some?
       <==> AllUtf8(Frames(s + Flatten(chunks)), utf8) && WithinCap(s, chunks, cap)
    decreases |chunks|
  {
    hide FrameEnd, Drain, Frames, Rest;
    if chunks == [] {
      assert s + Flatten(chunks) == s;
    } else {
      var d := Drain(Rest(s) + chunks[0], utf8);
      DrainIsSplit(Rest(s) + chunks[0], utf8);
      SplitResumes(s, chunks[0]);
      var seen := s + chunks[0];
      var arrived := Frames(Rest(s) + chunks[0]);
      UtfConcat(Frames(s), arrived, utf8);
      Assoc(s, chunks[0], Flatten(chunks[1..]));
      if AllUtf8(arrived, utf8) {
        FeedAccepts(seen, chunks[1..], cap, utf8);
        BadFrame(d, Rest(s) + chunks[0], utf8);
      } else {
        SplitResumes(seen, Flatten(chunks[1..]));
        UtfConcat(Frames(seen), Frames(Rest(seen) + Flatten(chunks[1..])), utf8);
      }
    }
  }

  lemma UtfConcat(a: seq<seq<Byte>>, b: seq<seq<Byte>>, utf8: seq<Byte> -> bool)
    ensures AllUtf8(a + b, utf8) <==> AllUtf8(a, utf8) && AllUtf8(b, utf8)
  {
    if AllUtf8(a + b, utf8) {
      assert forall i :: 0 <= i < |a| ==> a[i] == (a + b)[i];
      assert forall i :: 0 <= i < |b| ==> b[i] == (a + b)[|a| + i];
    }
  }

  lemma BadFrame(d: Drained, buffer: seq<Byte>, utf8: seq<Byte> -> bool)
    requires IsSplitOf(d, buffer, utf8)
    ensures d.bad <==> !AllUtf8(Frames(buffer), utf8)
  {
    if d.bad {
      var k := |d.frames|;
      assert Frames(buffer) == Frames(buffer)[..k] + ([Frames(buffer)[k]] + Frames(buffer)[k + 1..]);
      UtfConcat(Frames(buffer)[..k], [Frames(buffer)[k]] + Frames(buffer)[k + 1..], utf8);
      UtfConcat([Frames(buffer)[k]], Frames(buffer)[k + 1..], utf8);
    }
  }

  /** Which cuts are accepted: a frame that is not UTF-8 is refused in every cut, and beyond that only
      the length of the unfinished frame between two pushes matters. */
  lemma AcceptedExactlyWhen(chunks: seq<seq<Byte>>, cap: nat, utf8: seq<Byte> -> bool)
    ensures Feed([], chunks, cap, utf8).Some?
       <==> AllUtf8(Frames(Flatten(chunks)), utf8) && WithinCap([], chunks, cap)
  {
    FeedAccepts([], chunks, cap, utf8);
    assert [] + Flatten(chunks) == Flatten(chunks);
  }

  // ----- The mutable splitter -----

  predicate Pair(s: seq<Byte>, i: nat) {
    i + 1 < |s| && s[i] == LF && s[i + 1] == LF
  }

  ghost predicate NoPairBefore(s: seq<Byte>, end: int) {
    forall i :: 0 <= i < end ==> !Pair(s, i)
  }

  lemma {:induction false} FirstPairEndsFrame(s: seq<Byte>, i: nat)
    requires NoPairBefore(s, i) && Pair(s, i)
    ensures FrameEnd(s) == Some(i + 2)
  {
    if i > 0 {
      assert !Pair(s, 0);
      assert forall k :: 0 <= k < i - 1 ==> Pair(s[1..], k) == Pair(s, k + 1);
      FirstPairEndsFrame(s[1..], i - 1);
    }
  }

  lemma {:induction false} NoPairNoFrame(s: seq<Byte>)
    requires NoPairBefore(s, |s| - 1)
    ensures FrameEnd(s).None?
  {
    if |s| >= 2 {
      assert !Pair(s, 0);
      assert forall k :: 0 <= k < |s| - 2 ==> Pair(s[1..], k) == Pair(s, k + 1);
      NoPairNoFrame(s[1..]);
    }
  }

  // ----- Which windows are compared -----

  /** Windows that start inside the first `scanned` bytes and end there too. */
  function Searched(scanned: nat): nat {
    if scanned == 0 then 0 else scanned - 1
  }

  /** The positions `from`, `from + 1`, ... in order. */
  function Range(from: nat, count: nat): seq<nat> {
    seq(count, i requires 0 <= i => from + i)
  }

  /** Every window inside a frame, frame after frame: none of them straddles a frame end. */
  function Windows(frames: seq<seq<Byte>>, base: nat): seq<nat> {
    if frames == [] then []
    else Range(base, Searched(|frames[0]|)) + Windows(frames[1..], base + |frames[0]|)
  }

  /** The windows of the frames in `done`, then those searched in the unfinished frame behind it. */
  function Trace(done: seq<Byte>, scanned: nat): seq<nat> {
    Windows(Frames(done), 0) + Range(|done|, Searched(scanned))
  }

  lemma RangeJoins(from: nat, a: nat, b: nat)
    ensures Range(from, a) + Range(from + a, b) == Range(from, a + b)
  {
  }

  lemma RangeGrows(from: nat, count: nat)
    ensures Range(from, count) + [from + count] == Range(from, count + 1)
  {
  }

  lemma {:induction false} WindowsAppend(frames: seq<seq<Byte>>, f: seq<Byte>, base: nat)
    ensures Windows(frames + [f], base) == Windows(frames, base) + Range(base + |Flatten(frames)|, Searched(|f|))
  {
    hide Range;
    if frames == [] {
      assert [f][1..] == [] && frames + [f] == [f];
      assert Windows([f], base) == Range(base, Searched(|f|)) + [];
    } else {
      var first, later := frames[0], frames[1..];
      assert (frames + [f])[0] == first && (frames + [f])[1..] == later + [f];
      WindowsAppend(later, f, base + |first|);
      Assoc(Range(base, Searched(|first|)), Windows(later, base + |first|),
            Range(base + |Flatten(frames)|, Searched(|f|)));
    }
  }

  /** Searching on extends the trace by the windows behind the watermark. */
  lemma TraceExtends(done: seq<Byte>, scanned: nat, k: nat)
    ensures Trace(done, scanned) + Range(|done| + Searched(scanned), k)
         == Windows(Frames(done), 0) + Range(|done|, Searched(scanned) + k)
  {
    hide Range, Windows, Frames;
    RangeJoins(|done|, Searched(scanned), k);
    Assoc(Windows(Frames(done), 0), Range(|done|, Searched(scanned)), Range(|done| + Searched(scanned), k));
  }

  /** A frame whose windows were all searched counts as done. */
  lemma TraceTakesFrame(done: seq<Byte>, f: seq<Byte>)
    requires Rest(done) == [] && IsFrame(f)
    ensures Windows(Frames(done), 0) + Range(|done|, Searched(|f|)) == Trace(done + f, 0)
  {
    hide *;
    OneMoreFrame(done, f);
    AllFlattened(done);
    FirstWindows(Frames(done), f, Frames(done + f), |done|);
    NothingBehind(done + f);
  }

  lemma FirstWindows(frames: seq<seq<Byte>>, f: seq<Byte>, more: seq<seq<Byte>>, n: nat)
    requires more == frames + [f] && n == |Flatten(frames)|
    ensures Windows(more, 0) == Windows(frames, 0) + Range(n, Searched(|f|))
  {
    hide *;
    WindowsAppend(frames, f, 0);
  }

  lemma NothingBehind(done: seq<Byte>)
    ensures Trace(done, 0) == Windows(Frames(done), 0)
  {
    hide Windows, Frames;
    assert Range(|done|, 0) == [];
  }

  lemma AllFlattened(done: seq<Byte>)
    requires Rest(done) == []
    ensures |Flatten(Frames(done))| == |done|
  {
    hide Rest, Frames, Flatten, FrameEnd;
    SplitIsExact(done);
  }

  lemma NoRange(from: nat)
    ensures Range(from, 0) == []
  {
  }

  lemma OneMoreFrame(done: seq<Byte>, f: seq<Byte>)
    requires Rest(done) == [] && IsFrame(f)
    ensures Frames(done + f) == Frames(done) + [f] && Rest(done + f) == []
  {
    hide FrameEnd, Frames, Rest;
    SplitResumes(done, f);
    assert [] + f == f;
    SplitHead(f);
    assert f[..|f|] == f && f[|f|..] == [];
    assert FrameEnd([]).None? by { NoPairNoFrame([]); }
    SplitHead([]);
  }

  /** A frame ends at this length. */
  predicate EndsAt(frames: seq<seq<Byte>>, n: nat) {
    frames != [] && (n == |frames[0]| || (n > |frames[0]| && EndsAt(frames[1..], n - |frames[0]|)))
  }

  /** Each position once, in stream order; all but those that straddle the end of a frame. */
  lemma {:induction false} WindowsAre(frames: seq<seq<Byte>>, base: nat, p: nat)
    requires forall i :: 0 <= i < |frames| ==> frames[i] != []
    ensures p in Windows(frames, base) <==>
      base <= p < base + |Flatten(frames)| && !EndsAt(frames, p + 1 - base)
  {
    if frames != [] {
      WindowsAre(frames[1..], base + |frames[0]|, p);
      InRange(base, Searched(|frames[0]|), p);
    }
  }

  lemma InRange(from: nat, count: nat, p: nat)
    ensures p in Range(from, count) <==> from <= p < from + count
  {
    if from <= p < from + count {
      assert Range(from, count)[p - from] == p;
    }
  }

  lemma {:induction false} WindowCount(frames: seq<seq<Byte>>, base: nat)
    requires forall i :: 0 <= i < |frames| ==> frames[i] != []
    ensures |Windows(frames, base)| + |frames| == |Flatten(frames)|
  {
    if frames != [] {
      WindowCount(frames[1..], base + |frames[0]|);
    }
  }

  /** Positions between two bounds, each behind the one before. */
  ghost predicate Increasing(positions: seq<nat>, low: nat, high: nat) {
    && (forall i, j :: 0 <= i < j < |positions| ==> positions[i] < positions[j])
    && (forall i :: 0 <= i < |positions| ==> low <= positions[i] < high)
  }

  lemma IncreasingJoins(a: seq<nat>, b: seq<nat>, low: nat, mid: nat, high: nat)
    requires Increasing(a, low, mid) && Increasing(b, mid, high) && low <= mid <= high
    ensures Increasing(a + b, low, high)
  {
  }

  lemma RangeIncreases(from: nat, count: nat, high: nat)
    requires from + count <= high
    ensures Increasing(Range(from, count), from, high)
  {
  }

  lemma {:induction false} WindowsIncrease(frames: seq<seq<Byte>>, base: nat)
    ensures Increasing(Windows(frames, base), base, base + |Flatten(frames)|)
  {
    hide Increasing, Range;
    if frames == [] {
      RangeIncreases(base, 0, base);
      NoRange(base);
    } else {
      var next := base + |frames[0]|;
      RangeIncreases(base, Searched(|frames[0]|), next);
      WindowsIncrease(frames[1..], next);
      IncreasingJoins(Range(base, Searched(|frames[0]|)), Windows(frames[1..], next), base, next, base + |Flatten(frames)|);
    }
  }

  /** In a trace every window up to the watermark comes once, in stream order, except those that straddle
      the end of a frame, which are never looked at. */
  lemma TraceMeans(done: seq<Byte>, scanned: nat, p: nat)
    requires Rest(done) == []
    ensures Increasing(Trace(done, scanned), 0, |done| + Searched(scanned))
    ensures |Trace(done, scanned)| + |Frames(done)| == |done| + Searched(scanned)
    ensures p in Trace(done, scanned) <==> p < |done| + Searched(scanned) && !EndsAt(Frames(done), p + 1)
  {
    hide Increasing, Frames, Windows, Rest, FrameEnd, EndsAt, Flatten;
    var frames, count := Frames(done), Searched(scanned);
    AllFlattened(done);
    forall i | 0 <= i < |frames| ensures frames[i] != [] {
      FramesAreFrames(done, i);
      FrameIsNotEmpty(frames[i]);
    }
    WindowsIncrease(frames, 0);
    RangeIncreases(|done|, count, |done| + count);
    IncreasingJoins(Windows(frames, 0), Range(|done|, count), 0, |done|, |done| + count);
    WindowCount(frames, 0);
    WindowsAre(frames, 0, p);
    InRange(|done|, count, p);
    if p >= |done| {
      NoEndBeyond(frames, p + 1);
    }
  }

  lemma FrameIsNotEmpty(f: seq<Byte>)
    requires IsFrame(f)
    ensures f != []
  {
  }

  lemma {:induction false} NoEndBeyond(frames: seq<seq<Byte>>, n: nat)
    requires n > |Flatten(frames)|
    ensures !EndsAt(frames, n)
  {
    if frames != [] && n > |frames[0]| {
      NoEndBeyond(frames[1..], n - |frames[0]|);
    }
  }

  class Splitter {
    const cap: nat
    const utf8: seq<Byte> -> bool
    var buffer: seq<Byte>
    var scanned: nat
    /** All bytes pushed since the last `take_rest`, and how many of them were drained as frames. */
    ghost var pushed: seq<Byte>
    ghost var drained: nat
    /** The stream positions of all two-byte windows compared so far. */
    ghost var compared: seq<nat>

    ghost predicate ValidBuffer()
      reads this
    {
      && drained + |buffer| == |pushed| && pushed[drained..] == buffer
      && Rest(pushed[..drained]) == []
      && scanned <= |buffer|
      && NoPairBefore(buffer, scanned - 1)
    }

    /** The comparisons made so far are those of the drained frames and those up to the watermark. */
    ghost predicate Valid()
      reads this
    {
      ValidBuffer() && compared == Trace(pushed[..drained], scanned)
    }

    constructor (cap: nat, utf8: seq<Byte> -> bool)
      ensures Valid() && buffer == [] && pushed == [] && this.cap == cap && this.utf8 == utf8
    {
      this.cap, this.utf8 := cap, utf8;
      buffer, scanned := [], 0;
      pushed, drained, compared := [], 0, [];
    }

    /** `windows(2).position(..)` over `buffer[from..]`, recording every comparison: the windows from `from`
        through the one that is found, or all of them. */
    method Search(from: nat) returns (found: Option<nat>)
      requires from <= Searched(|buffer|)
      modifies this`compared
      ensures found.Some? ==> from <= found.value && Pair(buffer, found.value)
      ensures found.Some? ==> forall i :: from <= i < found.value ==> !Pair(buffer, i)
      ensures found.None? ==> forall i :: from <= i < |buffer| - 1 ==> !Pair(buffer, i)
      ensures compared == old(compared) + Range(drained + from, Examined(found, from, |buffer|))
    {
      hide Range;
      NoRange(drained + from);
      var i := from;
      while i + 1 < |buffer|
        invariant from <= i <= Searched(|buffer|)
        invariant forall k :: from <= k < i ==> !Pair(buffer, k)
        invariant compared == old(compared) + Range(drained + from, i - from)
      {
        RangeGrows(drained + from, i - from);
        Assoc(old(compared), Range(drained + from, i - from), [drained + i]);
        compared := compared + [drained + i];
        if buffer[i] == LF && buffer[i + 1] == LF {
          return Some(i);
        }
        i := i + 1;
      }
      found := None;
    }

    /** Take the frame that ends at `boundary + 2` out of the buffer. */
    method TakeFrame(boundary: nat) returns (bytes: seq<Byte>)
      requires ValidBuffer() && Pair(buffer, boundary) && NoPairBefore(buffer, boundary)
      requires compared == Windows(Frames(pushed[..drained]), 0) + Range(drained, boundary + 1)
      modifies this`buffer, this`scanned, this`drained
      ensures Valid() && FrameEnd(old(buffer)) == Some(boundary + 2)
      ensures bytes == old(buffer)[..boundary + 2] && buffer == old(buffer)[boundary + 2..]
    {
      hide FrameEnd, Rest, Frames, NoPairBefore, Pair, Windows, Range, Trace;
      var n := boundary + 2;
      FirstPairEndsFrame(buffer, boundary);
      FrameEndTruncates(buffer);
      bytes := buffer[..n];
      TraceTakesFrame(pushed[..drained], bytes);
      OneMoreFrame(pushed[..drained], bytes);
      SliceBoth(pushed, drained, n);
      buffer, scanned := buffer[n..], 0;
      drained := drained + n;
      NothingSearched(buffer);
    }

    /** One turn of the loop of `push`: search on from the watermark, take the frame that is found. */
    method NextFrame() returns (taken: Option<seq<Byte>>)
      requires Valid()
      modifies this`buffer, this`scanned, this`drained, this`compared
      ensures Valid()
      ensures match FrameEnd(old(buffer))
        case None => taken.None? && buffer == old(buffer) && scanned == |buffer|
        case Some(n) => taken == Some(old(buffer)[..n]) && buffer == old(buffer)[n..]
    {
      hide FrameEnd, Rest, Frames, NoPairBefore, Pair, Windows, Range;
      // The last byte searched so far may turn out to be the first half of a pair.
      var from := Searched(scanned);
      var found := Search(from);
      JoinSearches(buffer, scanned, found);
      TraceExtends(pushed[..drained], scanned, Examined(found, from, |buffer|));
      if found.None? {
        scanned := |buffer|;
        return None;
      }
      var bytes := TakeFrame(found.value);
      taken := Some(bytes);
    }

    /** Append bytes and drain every complete frame. */
    method Push(bytes: seq<Byte>) returns (r: Outcome)
      requires Valid()
      modifies this
      ensures Valid()
      ensures pushed == old(pushed) + bytes
      ensures var d := Drain(old(buffer) + bytes, utf8); buffer == d.rest && r == Answer(d, cap)
      ensures r != Refused(NotUtf8) ==> scanned == |buffer|
    {
      hide FrameEnd, Rest, NoPairBefore, Trace, Drain;
      AppendKeepsPrefix(pushed, drained, buffer, bytes);
      NoPairAppend(buffer, bytes, scanned);
      buffer, pushed := buffer + bytes, pushed + bytes;
      assert Valid();
      hide Valid, ValidBuffer;
      ghost var whole := Drain(buffer, utf8);
      var frames: seq<Frame> := [];
      while true
        invariant Valid()
        invariant pushed == old(pushed) + bytes
        invariant var d := Drain(buffer, utf8);
          whole.rest == d.rest && whole.bad == d.bad && whole.frames == frames + d.frames
        decreases |buffer|
      {
        DrainHead(buffer, utf8);
        var taken := NextFrame();
        if taken.None? {
          break;
        }
        var text := taken.value[..|taken.value| - 2];
        if !utf8(text) {
          return Refused(NotUtf8);
        }
        frames := frames + [Frame(taken.value, text)];
      }
      r := if |buffer| > cap then Refused(OverCap) else Accepted(frames);
    }

    /** The bytes of an unfinished trailing frame; the splitter starts over. */
    method TakeRest() returns (rest: seq<Byte>)
      requires Valid()
      modifies this
      ensures Valid() && buffer == [] && pushed == [] && rest == old(buffer)
      ensures old(scanned) == |old(buffer)| ==> rest == Rest(old(pushed))
    {
      if scanned == |buffer| {
        BufferIsRest(pushed, drained, buffer);
      }
      rest := buffer;
      buffer, scanned := [], 0;
      pushed, drained, compared := [], 0, [];
    }

    method IsEmpty() returns (empty: bool)
      requires Valid()
      ensures empty <==> buffer == []
      ensures scanned == |buffer| ==> (empty <==> Rest(pushed) == [])
    {
      if scanned == |buffer| {
        BufferIsRest(pushed, drained, buffer);
      }
      empty := buffer == [];
    }

    /** However many reads a frame arrives in, every window is compared once: those up to the watermark,
        in stream order, except the straddling ones. So there are fewer comparisons than bytes, by one for
        each frame drained. */
    lemma ComparesEachWindowOnce(p: nat)
      requires Valid()
      ensures forall i, j :: 0 <= i < j < |compared| ==> compared[i] < compared[j]
      ensures p in compared <==> p < drained + Searched(scanned) && !EndsAt(Frames(pushed[..drained]), p + 1)
      ensures |compared| + |Frames(pushed[..drained])| == drained + Searched(scanned) <= |pushed|
    {
      hide Rest, Trace, EndsAt, Frames;
      TraceMeans(pushed[..drained], scanned, p);
    }
  }

  /** How many windows a search that started at `from` looked at. */
  function Examined(found: Option<nat>, from: nat, length: nat): nat
    requires from <= Searched(length) && (found.Some? ==> from <= found.value)
  {
    match found case Some(i) => i + 1 - from case None => Searched(length) - from
  }

  lemma SliceBoth(s: seq<Byte>, m: nat, n: nat)
    requires m + n <= |s|
    ensures s[..m] + s[m..][..n] == s[..m + n] && s[m..][n..] == s[m + n..]
  {
  }

  lemma BufferIsRest(pushed: seq<Byte>, drained: nat, buffer: seq<Byte>)
    requires drained <= |pushed| && pushed[drained..] == buffer && Rest(pushed[..drained]) == []
    requires NoPairBefore(buffer, |buffer| - 1)
    ensures Rest(pushed) == buffer
  {
    hide FrameEnd;
    SplitResumes(pushed[..drained], buffer);
    assert pushed[..drained] + buffer == pushed && [] + buffer == buffer;
    NoPairNoFrame(buffer);
  }

  lemma NothingSearched(buffer: seq<Byte>)
    ensures NoPairBefore(buffer, -1)
  {
  }

  lemma NoPairAppend(buffer: seq<Byte>, bytes: seq<Byte>, scanned: nat)
    requires scanned <= |buffer| && NoPairBefore(buffer, scanned - 1)
    ensures NoPairBefore(buffer + bytes, scanned - 1)
  {
    forall i | 0 <= i < scanned - 1 ensures !Pair(buffer + bytes, i) {
      assert !Pair(buffer, i);
    }
  }

  lemma AppendKeepsPrefix(pushed: seq<Byte>, drained: nat, buffer: seq<Byte>, bytes: seq<Byte>)
    requires drained <= |pushed| && pushed[drained..] == buffer
    ensures (pushed + bytes)[drained..] == buffer + bytes
    ensures (pushed + bytes)[..drained] == pushed[..drained]
  {
  }

  lemma JoinSearches(buffer: seq<Byte>, scanned: nat, found: Option<nat>)
    requires scanned <= |buffer| && NoPairBefore(buffer, scanned - 1)
    requires found.Some? ==> forall i :: Searched(scanned) <= i < found.value ==> !Pair(buffer, i)
    requires found.None? ==> forall i :: Searched(scanned) <= i < |buffer| - 1 ==> !Pair(buffer, i)
    ensures found.Some? ==> NoPairBefore(buffer, found.value)
    ensures found.None? ==> NoPairBefore(buffer, |buffer| - 1) && FrameEnd(buffer).None?
  {
    if found.None? {
      NoPairNoFrame(buffer);
    }
  }

  lemma DrainHead(buffer: seq<Byte>, utf8: seq<Byte> -> bool)
    ensures match FrameEnd(buffer)
      case None => Drain(buffer, utf8) == Drained([], buffer, false)
      case Some(n) =>
        if !utf8(buffer[..n][..n - 2]) then Drain(buffer, utf8) == Drained([], buffer[n..], true)
        else
          var d, later := Drain(buffer, utf8), Drain(buffer[n..], utf8);
          && d.rest == later.rest && d.bad == later.bad
          && d.frames == [Frame(buffer[..n], buffer[..n][..n - 2])] + later.frames
  {
    hide FrameEnd;
    match FrameEnd(buffer)
    case None =>
    case Some(n) => assert buffer[..n][..n - 2] == buffer[..n - 2];
  }
}
