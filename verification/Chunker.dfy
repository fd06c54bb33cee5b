/** The text chunker (crates/veclite/src/chunk.rs) over the UTF-8 bytes of a text
    (section 3 of RFC 3629): where it cuts, what its ranges are, and exactly when
    it covers the whole text. */
module Chunker {
  import opened Core
  import opened Words

  /** One byte: the first of a code point, or a continuation. */
  datatype Cell = Lead(c: char) | Tail

  type Text = seq<Cell>

  /** The byte range of a chunk and the bytes in it. */
  datatype Chunk = Chunk(text: Text, lo: nat, hi: nat)

  function Tails(n: nat): Text {
    seq(n, _ => Tail)
  }

  function Encoded(s: string): Text {
    if s == "" then [] else [Lead(s[0])] + Tails(ByteWidth(s[0]) - 1) + Encoded(s[1..])
  }

  predicate Boundary(t: Text, i: nat) {
    i == |t| || (i < |t| && t[i].Lead?)
  }

  /** Where the code point that starts at `i` ends. */
  function PastPoint(t: Text, i: nat): nat
    requires i < |t| && t[i].Lead?
  {
    i + ByteWidth(t[i].c)
  }

  /** The code point at `i` is whole. */
  ghost predicate WholeAt(t: Text, i: nat)
    requires i < |t|
  {
    t[i].Lead? ==>
      && PastPoint(t, i) <= |t| && Boundary(t, PastPoint(t, i))
      && forall j :: i < j < PastPoint(t, i) ==> t[j].Tail?
  }

  ghost predicate WellFormed(t: Text) {
    Boundary(t, 0) && forall i :: 0 <= i < |t| ==> WholeAt(t, i)
  }

  lemma {:induction false} EncodedWellFormed(s: string)
    ensures WellFormed(Encoded(s))
  {
    if s != "" {
      EncodedWellFormed(s[1..]);
      var t, rest, w := Encoded(s), Encoded(s[1..]), ByteWidth(s[0]);
      assert forall j :: w <= j < |t| ==> t[j] == rest[j - w];
      forall i | 0 <= i < |t| ensures WholeAt(t, i) {
        if i >= w {
          assert WholeAt(rest, i - w);
        }
      }
    }
  }

  // ----- cutting one window -------------------------------------------------

  predicate IsBreak(c: char) {
    IsWhitespace(c) || c == '.' || c == '!' || c == '?'
  }

  /** The last boundary at or before `e`, but not before `lo`. */
  function Floor(t: Text, lo: nat, e: nat): (r: nat)
    requires lo <= e <= |t|
    ensures lo <= r <= e && (Boundary(t, lo) ==> Boundary(t, r))
    ensures forall j :: r < j <= e ==> !Boundary(t, j)
  {
    if e == lo || Boundary(t, e) then e else Floor(t, lo, e - 1)
  }

  /** The first boundary at or after `n`. */
  function Ceiling(t: Text, n: nat): (r: nat)
    requires n <= |t|
    ensures n <= r <= |t| && Boundary(t, r)
    ensures forall b :: n <= b <= |t| && Boundary(t, b) ==> r <= b
    decreases |t| - n
  {
    if Boundary(t, n) then n else Ceiling(t, n + 1)
  }

  /** `rfind` of a sentence or whitespace break in a slice. */
  function LastBreak(t: Text, lo: nat, hi: nat): (r: Option<nat>)
    requires lo <= hi <= |t|
    ensures r.Some? ==> lo <= r.value < hi && t[r.value].Lead? && IsBreak(t[r.value].c)
    ensures forall j :: (if r.Some? then r.value + 1 else lo) <= j < hi && t[j].Lead? ==> !IsBreak(t[j].c)
  {
    if hi == lo then None
    else if t[hi - 1].Lead? && IsBreak(t[hi - 1].c) then Some(hi - 1)
    else LastBreak(t, lo, hi - 1)
  }

  /** Where the window that starts at `start` ends. */
  function EndAt(t: Text, max: nat, start: nat): (end: nat)
    requires start < |t| && Boundary(t, start)
    ensures start <= end <= Min(start + max, |t|) && Boundary(t, end)
  {
    var end := Min(start + max, |t|);
    if end == |t| then end
    else
      var floor := Floor(t, start, end);
      var at := LastBreak(t, start, floor);
      if at.None? then floor else Floor(t, start, at.value + 1)
  }

  /** Where the next window starts; not beyond `start` when there is no progress. */
  function NextAt(t: Text, overlap: nat, start: nat, end: nat): (next: nat)
    requires start <= end <= |t| && Boundary(t, start) && Boundary(t, end)
    ensures start <= next <= end && Boundary(t, next)
    ensures next == start <==> end == start
  {
    var back := if end >= overlap then end - overlap else end;
    Ceiling(t, if back <= start then end else back)
  }

  predicate Ink(t: Text, i: nat) {
    i < |t| && t[i].Lead? && !IsWhitespace(t[i].c)
  }

  /** The first character of a slice that is not whitespace. */
  function TrimStart(t: Text, lo: nat, hi: nat): (r: nat)
    requires lo <= hi <= |t|
    ensures lo <= r <= hi && (r < hi ==> Ink(t, r)) && forall j :: lo <= j < r ==> !Ink(t, j)
    decreases hi - lo
  {
    if lo == hi || Ink(t, lo) then lo else TrimStart(t, lo + 1, hi)
  }

  /** Past the last character of a slice that is not whitespace. */
  function TrimEnd(t: Text, lo: nat, hi: nat): (r: nat)
    requires lo <= hi <= |t|
    ensures lo <= r
    ensures r > lo ==> exists i :: lo <= i < hi && Ink(t, i) && r == PastPoint(t, i)
    ensures forall j :: lo <= j < hi && Ink(t, j) ==> j < r
  {
    if lo == hi then lo
    else if Ink(t, hi - 1) then PastPoint(t, hi - 1)
    else TrimEnd(t, lo, hi - 1)
  }

  /** A boundary at or after a code point's start is at its start or past it. */
  lemma PastFits(t: Text, i: nat, hi: nat)
    requires WellFormed(t) && i < hi <= |t| && t[i].Lead? && Boundary(t, hi)
    ensures i < PastPoint(t, i) <= hi && Boundary(t, PastPoint(t, i))
  {
    assert WholeAt(t, i);
  }

  lemma TrimFits(t: Text, lo: nat, hi: nat)
    requires WellFormed(t) && lo <= hi <= |t| && Boundary(t, hi)
    ensures TrimEnd(t, lo, hi) <= hi
    ensures TrimEnd(t, lo, hi) > lo ==> Boundary(t, TrimEnd(t, lo, hi)) && TrimStart(t, lo, hi) < TrimEnd(t, lo, hi)
    ensures TrimEnd(t, lo, hi) == lo ==> TrimStart(t, lo, hi) == hi
  {
    var a, b := TrimStart(t, lo, hi), TrimEnd(t, lo, hi);
    if b > lo {
      var i :| lo <= i < hi && Ink(t, i) && b == PastPoint(t, i);
      PastFits(t, i, hi);
    }
  }

  /** The trimmed slice, unless nothing is left of it. */
  function TrimmedAt(t: Text, lo: nat, hi: nat): seq<Chunk>
    requires WellFormed(t) && lo <= hi <= |t| && Boundary(t, hi)
  {
    TrimFits(t, lo, hi);
    if TrimEnd(t, lo, hi) == lo then []
    else [Chunk(t[TrimStart(t, lo, hi)..TrimEnd(t, lo, hi)], TrimStart(t, lo, hi), TrimEnd(t, lo, hi))]
  }

  /** The chunks from a window start on. */
  function ChunksFrom(t: Text, max: nat, overlap: nat, start: nat): seq<Chunk>
    requires WellFormed(t) && start <= |t| && Boundary(t, start)
    decreases |t| - start
  {
    if start == |t| then []
    else
      var end := EndAt(t, max, start);
      var next := NextAt(t, overlap, start, end);
      if next <= start then TrimmedAt(t, start, end)
      else TrimmedAt(t, start, end) + ChunksFrom(t, max, overlap, next)
  }

  // ----- what every chunk is ------------------------------------------------

  /** The range is on code-point boundaries, at most `max` bytes, holds the text,
      and neither starts nor ends with whitespace. */
  ghost predicate Sound(t: Text, max: nat, c: Chunk) {
    && c.lo < c.hi <= |t| && c.hi - c.lo <= max
    && Boundary(t, c.lo) && Boundary(t, c.hi)
    && c.text == t[c.lo..c.hi]
    && Ink(t, c.lo) && exists i :: c.lo <= i < c.hi && Ink(t, i) && c.hi == PastPoint(t, i)
  }

  lemma TrimmedSound(t: Text, max: nat, lo: nat, hi: nat)
    requires WellFormed(t) && lo <= hi <= |t| && Boundary(t, hi) && hi - lo <= max
    ensures forall c :: c in TrimmedAt(t, lo, hi) ==> Sound(t, max, c)
  {
    TrimFits(t, lo, hi);
    var a, b := TrimStart(t, lo, hi), TrimEnd(t, lo, hi);
    if b > lo {
      var i :| lo <= i < hi && Ink(t, i) && b == PastPoint(t, i);
      assert a <= i;
      PastFits(t, i, hi);
    }
  }

  lemma {:induction false} ChunksAreSound(t: Text, max: nat, overlap: nat, start: nat)
    requires WellFormed(t) && start <= |t| && Boundary(t, start)
    ensures forall c :: c in ChunksFrom(t, max, overlap, start) ==> Sound(t, max, c)
    decreases |t| - start
  {
    if start < |t| {
      var end := EndAt(t, max, start);
      var next := NextAt(t, overlap, start, end);
      TrimmedSound(t, max, start, end);
      if next > start {
        ChunksAreSound(t, max, overlap, next);
      }
    }
  }

  // ----- when a window cannot be left ---------------------------------------

  /** The code point at the window's start is too wide for it, or it is multi-byte
      whitespace and the only break of the window. */
  ghost predicate Stuck(t: Text, max: nat, start: nat)
    requires start < |t| && t[start].Lead?
  {
    && start + max < |t|
    && (|| ByteWidth(t[start].c) > max
        || (&& IsWhitespace(t[start].c) && ByteWidth(t[start].c) > 1
            && forall j :: start < j < Floor(t, start, start + max) && t[j].Lead? ==> !IsBreak(t[j].c)))
  }

  lemma FloorOfStart(t: Text, start: nat, e: nat)
    requires WellFormed(t) && start < |t| && t[start].Lead? && start <= e <= |t|
    ensures Floor(t, start, e) == start <==> e < PastPoint(t, start)
  {
    assert WholeAt(t, start);
    if e < PastPoint(t, start) {
      assert forall j :: start < j <= e ==> !Boundary(t, j);
    }
  }

  lemma StuckIff(t: Text, max: nat, start: nat)
    requires WellFormed(t) && start < |t| && t[start].Lead?
    ensures EndAt(t, max, start) == start <==> Stuck(t, max, start)
  {
    if start + max < |t| {
      var floor := Floor(t, start, start + max);
      FloorOfStart(t, start, start + max);
      if floor > start {
        var at := LastBreak(t, start, floor);
        if at == Some(start) {
          FloorOfStart(t, start, start + 1);
        } else if at.Some? {
          assert Boundary(t, at.value);
        }
      }
    }
  }

  // ----- what the chunks cover ----------------------------------------------

  ghost predicate Covers(chunks: seq<Chunk>, i: nat) {
    exists k :: 0 <= k < |chunks| && chunks[k].lo <= i < chunks[k].hi
  }

  ghost predicate CoversInk(chunks: seq<Chunk>, t: Text, done: nat) {
    forall i :: done <= i && Ink(t, i) ==> Covers(chunks, i)
  }

  /** Some window is stuck while there is text that is not whitespace and that no
      earlier window reached. */
  ghost predicate CutShort(t: Text, max: nat, overlap: nat, start: nat, done: nat)
    requires WellFormed(t) && start <= |t| && Boundary(t, start)
    decreases |t| - start
  {
    start < |t| &&
    if Stuck(t, max, start) then exists i :: done <= i && Ink(t, i)
    else
      StuckIff(t, max, start);
      var end := EndAt(t, max, start);
      CutShort(t, max, overlap, NextAt(t, overlap, start, end), Max(done, end))
  }

  lemma TrimmedCovers(t: Text, lo: nat, hi: nat, i: nat)
    requires WellFormed(t) && lo <= hi <= |t| && Boundary(t, hi) && lo <= i && Ink(t, i)
    ensures Covers(TrimmedAt(t, lo, hi), i) <==> i < hi
  {
    TrimFits(t, lo, hi);
    if i < hi {
      var c := TrimmedAt(t, lo, hi)[0];
      assert c.lo <= i < c.hi;
    }
  }

  lemma CoversJoin(a: seq<Chunk>, b: seq<Chunk>, i: nat)
    ensures Covers(a + b, i) <==> Covers(a, i) || Covers(b, i)
  {
    if Covers(a, i) {
      var k :| 0 <= k < |a| && a[k].lo <= i < a[k].hi;
      assert (a + b)[k] == a[k];
    }
    if Covers(b, i) {
      var k :| 0 <= k < |b| && b[k].lo <= i < b[k].hi;
      assert (a + b)[|a| + k] == b[k];
    }
  }

  /** A window's chunk, if it has one, covers what lies before the window's end. */
  lemma OwnCovers(t: Text, start: nat, end: nat, rest: seq<Chunk>, done: nat)
    requires WellFormed(t) && start <= end <= |t| && Boundary(t, end) && start <= done
    ensures CoversInk(TrimmedAt(t, start, end) + rest, t, done) <==> CoversInk(rest, t, Max(done, end))
  {
    var own := TrimmedAt(t, start, end);
    forall i | done <= i && Ink(t, i) ensures Covers(own + rest, i) <==> i < end || Covers(rest, i) {
      TrimmedCovers(t, start, end, i);
      CoversJoin(own, rest, i);
    }
    hide Covers, Ink, TrimmedAt;
  }

  lemma {:induction false} CoversFromIff(t: Text, max: nat, overlap: nat, start: nat, done: nat)
    requires WellFormed(t) && start <= |t| && Boundary(t, start) && start <= done
    ensures CoversInk(ChunksFrom(t, max, overlap, start), t, done) <==> !CutShort(t, max, overlap, start, done)
    decreases |t| - start
  {
    if start < |t| {
      StuckIff(t, max, start);
      var end := EndAt(t, max, start);
      var next := NextAt(t, overlap, start, end);
      var own, rest := TrimmedAt(t, start, end), if next > start then ChunksFrom(t, max, overlap, next) else [];
      assert ChunksFrom(t, max, overlap, start) == own + rest by {
        assert own + [] == own;
      }
      OwnCovers(t, start, end, rest, done);
      hide Ink, TrimmedAt, Stuck;
      if next > start {
        CoversFromIff(t, max, overlap, next, Max(done, end));
      }
    }
  }

  /** Every character that is not whitespace lies in some chunk if and only if no
      window is stuck with such text still to come. */
  lemma CoversIff(t: Text, max: nat, overlap: nat)
    requires WellFormed(t)
    ensures CoversInk(ChunksFrom(t, max, overlap, 0), t, 0) <==> !CutShort(t, max, overlap, 0, 0)
  {
    CoversFromIff(t, max, overlap, 0, 0);
  }

  // ----- text that is always covered ----------------------------------------

  /** No code point is wider than a window and no whitespace is multi-byte. */
  ghost predicate Narrow(t: Text, max: nat) {
    forall i :: 0 <= i < |t| && t[i].Lead? ==>
      ByteWidth(t[i].c) <= max && (IsWhitespace(t[i].c) ==> ByteWidth(t[i].c) == 1)
  }

  lemma {:induction false} NarrowNeverStops(t: Text, max: nat, overlap: nat, start: nat, done: nat)
    requires WellFormed(t) && max > 0 && Narrow(t, max) && start <= |t| && Boundary(t, start)
    ensures !CutShort(t, max, overlap, start, done)
    decreases |t| - start
  {
    if start < |t| {
      StuckIff(t, max, start);
      var end := EndAt(t, max, start);
      NarrowNeverStops(t, max, overlap, NextAt(t, overlap, start, end), Max(done, end));
    }
  }

  /** Text whose code points fit the window and whose whitespace is ASCII is
      covered whole. */
  lemma NarrowIsCovered(t: Text, max: nat, overlap: nat)
    requires WellFormed(t) && max > 0 && Narrow(t, max)
    ensures CoversInk(ChunksFrom(t, max, overlap, 0), t, 0)
  {
    NarrowNeverStops(t, max, overlap, 0, 0);
    CoversIff(t, max, overlap);
  }

  /** A three-byte code point and two letters. */
  function Spelled(c: char): Text {
    [Lead(c), Tail, Tail, Lead('a'), Lead('b')]
  }

  lemma SpelledOut(c: char)
    requires '\U{800}' <= c < '\U{10000}'
    ensures Encoded([c] + "ab") == Spelled(c) && WellFormed(Spelled(c))
  {
    EncodedWellFormed([c] + "ab");
    assert ([c] + "ab")[1..] == "ab" && "ab"[1..] == "b" && "b"[1..] == "";
    assert Encoded("b") == [Lead('b')];
    assert Encoded("ab") == [Lead('a'), Lead('b')];
  }

  /** Concrete failures: a code point wider than the window, or a window that opens
      with three-byte whitespace and has no other break, and nothing is chunked. */
  lemma NothingChunked(c: char)
    requires '\U{800}' <= c < '\U{10000}'
    ensures WellFormed(Spelled(c)) && Ink(Spelled(c), 3)
    ensures ChunksFrom(Spelled(c), 2, 0, 0) == []
    ensures IsWhitespace(c) ==> ChunksFrom(Spelled(c), 3, 0, 0) == []
  {
    SpelledOut(c);
    StuckIff(Spelled(c), 2, 0);
    FloorOfStart(Spelled(c), 0, 3);
    StuckIff(Spelled(c), 3, 0);
  }

  // ----- the windows, in plain words ----------------------------------------

  /** One window that was visited, and the chunk it gave, if any. */
  datatype Window = Window(start: nat, end: nat, part: seq<Chunk>)

  predicate BreakAt(t: Text, j: nat) {
    j < |t| && t[j].Lead? && (IsWhitespace(t[j].c) || t[j].c in {'.', '!', '?'})
  }

  /** The last code point boundary up to `e`. */
  ghost predicate LastBoundary(t: Text, e: nat, r: nat) {
    r <= e && Boundary(t, r) && forall j :: r < j <= e ==> !Boundary(t, j)
  }

  ghost predicate NoBreak(t: Text, lo: nat, hi: nat) {
    forall j :: lo <= j < hi ==> !BreakAt(t, j)
  }

  /** A window ends with the text; else behind its last break, or before it where that is
      a multi-byte one; else, with no break, at its last boundary. */
  ghost predicate EndsAt(t: Text, max: nat, start: nat, end: nat) {
    if |t| <= start + max then end == |t|
    else exists floor: nat ::
      && LastBoundary(t, start + max, floor)
      && if NoBreak(t, start, floor) then end == floor
         else exists at: nat ::
           && start <= at < floor && BreakAt(t, at) && NoBreak(t, at + 1, floor)
           && end == if ByteWidth(t[at].c) == 1 then at + 1 else at
  }

  /** The next window starts at the first boundary that leaves at most `overlap` bytes of
      this one to be repeated; at its end, when it is not longer than that. */
  ghost predicate Resumes(t: Text, overlap: nat, w: Window, next: nat) {
    if w.end > w.start + overlap then
      w.end - overlap <= next && Boundary(t, next) && forall b :: w.end - overlap <= b < next ==> !Boundary(t, b)
    else next == w.end
  }

  /** A window's chunk goes from its first character that is not whitespace to behind its
      last one; there is none if it has no such character. */
  ghost predicate Trims(t: Text, w: Window) {
    if forall i :: w.start <= i < w.end ==> !Ink(t, i) then w.part == []
    else
      && |w.part| == 1 && w.part[0].lo < w.part[0].hi <= |t| && w.part[0].text == t[w.part[0].lo..w.part[0].hi]
      && w.start <= w.part[0].lo < w.end && Ink(t, w.part[0].lo)
      && (forall i :: w.start <= i < w.part[0].lo ==> !Ink(t, i))
      && exists i :: w.start <= i < w.end && Ink(t, i) && w.part[0].hi == i + ByteWidth(t[i].c)
           && forall j :: i < j < w.end ==> !Ink(t, j)
  }

  ghost predicate Cut(t: Text, max: nat, w: Window) {
    EndsAt(t, max, w.start, w.end) && Trims(t, w)
  }

  ghost predicate Follows(t: Text, overlap: nat, ws: seq<Window>, k: nat)
    requires 0 < k < |ws|
  {
    ws[k - 1].start < ws[k].start && Resumes(t, overlap, ws[k - 1], ws[k].start)
  }

  /** The windows of a text from `start` on. After the last one the text is done, or the
      window could not be left. */
  ghost predicate Visits(t: Text, max: nat, overlap: nat, start: nat, ws: seq<Window>) {
    && (ws == [] <==> start == |t|)
    && (ws != [] ==>
          var last := ws[|ws| - 1];
          ws[0].start == start && (last.end == last.start || Resumes(t, overlap, last, |t|)))
    && (forall w :: w in ws ==> Cut(t, max, w))
    && (forall k :: 0 < k < |ws| ==> Follows(t, overlap, ws, k))
  }

  function Parts(ws: seq<Window>): seq<Chunk> {
    if ws == [] then [] else ws[0].part + Parts(ws[1..])
  }

  lemma BreakIs(t: Text, lo: nat, hi: nat)
    requires lo <= hi <= |t|
    ensures LastBreak(t, lo, hi).None? <==> NoBreak(t, lo, hi)
    ensures LastBreak(t, lo, hi).Some? ==>
      var at := LastBreak(t, lo, hi).value; lo <= at < hi && BreakAt(t, at) && NoBreak(t, at + 1, hi)
  {
    assert forall j: nat :: j < |t| ==> (BreakAt(t, j) <==> t[j].Lead? && IsBreak(t[j].c));
    var r := LastBreak(t, lo, hi);
    if r.Some? {
      assert BreakAt(t, r.value);
    }
    hide IsBreak;
  }

  /** Behind a break of one byte there is a boundary; a wider one begins at the last. */
  lemma BehindBreak(t: Text, start: nat, at: nat)
    requires WellFormed(t) && start <= at < |t| && t[at].Lead?
    ensures Floor(t, start, at + 1) == if ByteWidth(t[at].c) == 1 then at + 1 else at
  {
    assert WholeAt(t, at);
    assert Boundary(t, at);
  }

  lemma EndIs(t: Text, max: nat, start: nat)
    requires WellFormed(t) && start < |t| && Boundary(t, start)
    ensures EndsAt(t, max, start, EndAt(t, max, start))
  {
    if start + max < |t| {
      var floor := Floor(t, start, start + max);
      assert LastBoundary(t, start + max, floor);
      BreakIs(t, start, floor);
      var at := LastBreak(t, start, floor);
      hide LastBreak, Floor, NoBreak, LastBoundary;
      if at.Some? {
        BehindBreak(t, start, at.value);
      }
    }
  }

  lemma NextIs(t: Text, overlap: nat, w: Window)
    requires w.start <= w.end <= |t| && Boundary(t, w.start) && Boundary(t, w.end)
    ensures Resumes(t, overlap, w, NextAt(t, overlap, w.start, w.end))
  {
  }

  lemma TrimIs(t: Text, start: nat, end: nat)
    requires WellFormed(t) && start <= end <= |t| && Boundary(t, end)
    ensures Trims(t, Window(start, end, TrimmedAt(t, start, end)))
  {
    TrimFits(t, start, end);
    var a, b := TrimStart(t, start, end), TrimEnd(t, start, end);
    if b > start {
      var i :| start <= i < end && Ink(t, i) && b == PastPoint(t, i);
      PastFits(t, i, end);
      assert WholeAt(t, i);
    }
  }

  /** The windows that the chunker visits. */
  function WindowsFrom(t: Text, max: nat, overlap: nat, start: nat): seq<Window>
    requires WellFormed(t) && start <= |t| && Boundary(t, start)
    decreases |t| - start
  {
    if start == |t| then []
    else
      var end := EndAt(t, max, start);
      var next := NextAt(t, overlap, start, end);
      [Window(start, end, TrimmedAt(t, start, end))]
        + if next <= start then [] else WindowsFrom(t, max, overlap, next)
  }

  lemma {:induction false} PartsAreChunks(t: Text, max: nat, overlap: nat, start: nat)
    requires WellFormed(t) && start <= |t| && Boundary(t, start)
    ensures Parts(WindowsFrom(t, max, overlap, start)) == ChunksFrom(t, max, overlap, start)
    decreases |t| - start
  {
    if start < |t| {
      var end := EndAt(t, max, start);
      var next := NextAt(t, overlap, start, end);
      var w := Window(start, end, TrimmedAt(t, start, end));
      var rest := if next <= start then [] else WindowsFrom(t, max, overlap, next);
      assert ([w] + rest)[1..] == rest && ([w] + rest)[0] == w;
      if next > start {
        PartsAreChunks(t, max, overlap, next);
      }
    }
  }

  lemma VisitsMore(t: Text, max: nat, overlap: nat, w: Window, next: nat, rest: seq<Window>)
    requires Cut(t, max, w) && Resumes(t, overlap, w, next) && w.start < next && w.start != |t|
    requires Visits(t, max, overlap, next, rest)
    ensures Visits(t, max, overlap, w.start, [w] + rest)
  {
    hide Cut, Resumes;
    var ws := [w] + rest;
    forall k | 0 < k < |ws| ensures Follows(t, overlap, ws, k) {
      if k > 1 {
        assert Follows(t, overlap, rest, k - 1);
      }
    }
    if rest != [] {
      assert ws[|ws| - 1] == rest[|rest| - 1];
    }
  }

  lemma {:induction false} WindowsVisit(t: Text, max: nat, overlap: nat, start: nat)
    requires WellFormed(t) && start <= |t| && Boundary(t, start)
    ensures Visits(t, max, overlap, start, WindowsFrom(t, max, overlap, start))
    decreases |t| - start
  {
    if start < |t| {
      var end := EndAt(t, max, start);
      var next := NextAt(t, overlap, start, end);
      var w := Window(start, end, TrimmedAt(t, start, end));
      EndIs(t, max, start);
      NextIs(t, overlap, w);
      TrimIs(t, start, end);
      hide EndsAt, Trims, Resumes, EndAt, NextAt, TrimmedAt;
      if next > start {
        WindowsVisit(t, max, overlap, next);
        VisitsMore(t, max, overlap, w, next, WindowsFrom(t, max, overlap, next));
      }
    }
  }

  /** The chunks are those of such windows. */
  ghost predicate Windowed(t: Text, max: nat, overlap: nat, chunks: seq<Chunk>) {
    exists ws :: Visits(t, max, overlap, 0, ws) && chunks == Parts(ws)
  }

  lemma ChunksAreWindowed(t: Text, max: nat, overlap: nat)
    requires WellFormed(t)
    ensures Windowed(t, max, overlap, ChunksFrom(t, max, overlap, 0))
  {
    hide Visits;
    WindowsVisit(t, max, overlap, 0);
    PartsAreChunks(t, max, overlap, 0);
  }

  // ----- the loop -----------------------------------------------------------

  method Backed(t: Text, lo: nat, e: nat) returns (r: nat)
    requires lo <= e <= |t|
    ensures r == Floor(t, lo, e)
  {
    r := e;
    while r > lo && !Boundary(t, r)
      invariant lo <= r <= e && Floor(t, lo, r) == Floor(t, lo, e)
    {
      r := r - 1;
    }
  }

  method Forward(t: Text, n: nat) returns (r: nat)
    requires n <= |t|
    ensures r == Ceiling(t, n)
  {
    r := n;
    while r < |t| && !Boundary(t, r)
      invariant n <= r <= |t| && Ceiling(t, r) == Ceiling(t, n)
    {
      r := r + 1;
    }
  }

  method WindowEnd(t: Text, max: nat, start: nat) returns (end: nat)
    requires start < |t| && Boundary(t, start)
    ensures end == EndAt(t, max, start)
  {
    end := Min(start + max, |t|);
    if end < |t| {
      end := Backed(t, start, end);
      var at := LastBreak(t, start, end);
      if at.Some? {
        end := Backed(t, start, at.value + 1);
      }
    }
  }

  method WindowAfter(t: Text, overlap: nat, start: nat, end: nat) returns (next: nat)
    requires start <= end <= |t| && Boundary(t, start) && Boundary(t, end)
    ensures next == NextAt(t, overlap, start, end)
  {
    next := if end >= overlap then end - overlap else end;
    if next <= start {
      next := end;
    }
    next := Forward(t, next);
  }

  function Width(maxChars: nat): (max: nat)
    ensures max > 0
  {
    Max(maxChars, 1)
  }

  /** The overlap stays below the width. */
  function Shared(maxChars: nat, overlap: nat): nat {
    Min(overlap, Width(maxChars) - 1)
  }

  /** One window after the other, until the text is done or a window cannot be
      left. The options are clamped first. */
  method Chunked(t: Text, maxChars: nat, overlap: nat) returns (chunks: seq<Chunk>)
    requires WellFormed(t)
    ensures chunks == ChunksFrom(t, Width(maxChars), Shared(maxChars, overlap), 0)
    ensures forall c :: c in chunks ==> Sound(t, Width(maxChars), c)
    ensures CoversInk(chunks, t, 0) <==> !CutShort(t, Width(maxChars), Shared(maxChars, overlap), 0, 0)
    ensures Windowed(t, if maxChars == 0 then 1 else maxChars,
                     if overlap < maxChars then overlap else if maxChars == 0 then 0 else maxChars - 1, chunks)
  {
    var max, shared := Width(maxChars), Shared(maxChars, overlap);
    assert max == if maxChars == 0 then 1 else maxChars;
    assert shared == if overlap < maxChars then overlap else if maxChars == 0 then 0 else maxChars - 1;
    hide *;
    ChunksAreWindowed(t, max, shared);
    ChunksAreSound(t, max, shared, 0);
    CoversIff(t, max, shared);
    chunks := Windows(t, max, shared);
  }

  lemma WindowStep(before: seq<Chunk>, t: Text, max: nat, overlap: nat, start: nat)
    requires WellFormed(t) && start < |t| && Boundary(t, start)
    ensures var end := EndAt(t, max, start);
      var next := NextAt(t, overlap, start, end);
      before + ChunksFrom(t, max, overlap, start) ==
      (before + TrimmedAt(t, start, end)) + if next > start then ChunksFrom(t, max, overlap, next) else []
  {
  }

  method Windows(t: Text, max: nat, overlap: nat) returns (chunks: seq<Chunk>)
    requires WellFormed(t)
    ensures chunks == ChunksFrom(t, max, overlap, 0)
  {
    chunks := [];
    var start := 0;
    while start < |t|
      invariant start <= |t| && Boundary(t, start)
      invariant chunks + ChunksFrom(t, max, overlap, start) == ChunksFrom(t, max, overlap, 0)
    {
      var end := WindowEnd(t, max, start);
      var next := WindowAfter(t, overlap, start, end);
      WindowStep(chunks, t, max, overlap, start);
      chunks := chunks + TrimmedAt(t, start, end);
      if next <= start {
        assert chunks + [] == chunks;
        return;
      }
      start := next;
    }
    assert chunks + [] == chunks;
  }
}
