/** Reassembly of CRYPTO frames that arrive in any order (internal/assemble/quic.go). */
module CryptoStream {
  import opened Bytes
  import opened Frames

  const MAX_BYTES := 16384
  const MAX_FRAMES := 64

  /** The retained pieces by offset, and how many bytes they hold. */
  datatype Pieces = Pieces(segments: map<nat, bytes>, total: nat)

  const EMPTY := Pieces(map[], 0)

  // ---------------------------------------------------------------- adding a frame

  /** Whether `add` retains a frame at all. */
  predicate Retains(c: Pieces, offset: nat, data: bytes) {
    && data != [] && c.total < MAX_BYTES && |c.segments| < MAX_FRAMES
    && offset <= MAX_BYTES && offset !in c.segments
  }

  function Added(c: Pieces, offset: nat, data: bytes): Pieces {
    if !Retains(c, offset, data) then c
    else
      var kept := Take(data, MAX_BYTES - c.total);
      Pieces(c.segments[offset := kept], c.total + |kept|)
  }

  /** The lengths of the segments with offsets below `n`. */
  function SumBelow(m: map<nat, bytes>, n: nat): nat {
    if n == 0 then 0 else SumBelow(m, n - 1) + (if n - 1 in m then |m[n - 1]| else 0)
  }

  /** What every sequence of `add` calls keeps: the caps, non-empty segments, and an honest total. */
  ghost predicate Valid(c: Pieces) {
    && |c.segments| <= 64
    && c.total <= 16384
    && c.total == SumBelow(c.segments, 16385)
    && (forall o: nat :: o in c.segments ==> o <= 16384 && c.segments[o] != [])
  }

  lemma {:induction false} SumOfUpdate(m: map<nat, bytes>, o: nat, data: bytes, n: nat)
    requires o !in m
    ensures SumBelow(m[o := data], n) == SumBelow(m, n) + (if o < n then |data| else 0)
  {
    if n > 0 {
      SumOfUpdate(m, o, data, n - 1);
    }
  }

  lemma {:induction false} SumOfNothing(n: nat)
    ensures SumBelow(map[], n) == 0
  {
    if n > 0 {
      SumOfNothing(n - 1);
    }
  }

  lemma EmptyValid()
    ensures Valid(EMPTY)
  {
    SumOfNothing(MAX_BYTES + 1);
  }

  lemma AddKeepsValid(c: Pieces, offset: nat, data: bytes)
    requires Valid(c)
    ensures Valid(Added(c, offset, data))
  {
    if Retains(c, offset, data) {
      hide SumBelow;
      var kept := Take(data, MAX_BYTES - c.total);
      SumOfUpdate(c.segments, offset, kept, MAX_BYTES + 1);
      assert c.segments[offset := kept].Keys == c.segments.Keys + {offset};
    }
  }

  /**
   * A frame that is retained is cut to what the 16384 bytes leave room for, and fills them exactly if it was longer.
   */
  lemma AddFillsUp(c: Pieces, offset: nat, data: bytes)
    requires Valid(c) && data != [] && offset !in c.segments && offset <= 16384 && |c.segments| < 64 && c.total < 16384
    ensures var c' := Added(c, offset, data);
            && offset in c'.segments && c'.segments[offset] <= data
            && c'.segments == c.segments[offset := c'.segments[offset]]
            && c'.total == c.total + |c'.segments[offset]|
            && (c.total + |data| <= 16384 ==> c'.segments[offset] == data)
            && (c.total + |data| > 16384 ==> c'.total == 16384)
  {
  }

  // ---------------------------------------------------------------- the contiguous run

  /** Walks offsets upward from `i`, appending what each segment adds; `|out|` is the position wanted next. */
  function Run(m: map<nat, bytes>, i: nat, out: bytes): bytes
    decreases MAX_BYTES + 1 - i
  {
    if i > MAX_BYTES then out
    else if i !in m then Run(m, i + 1, out)
    else if i > |out| then out
    else if i + |m[i]| <= |out| then Run(m, i + 1, out)
    else Run(m, i + 1, out + m[i][|out| - i..])
  }

  /** `prefix`. */
  function Contiguous(c: Pieces): bytes {
    Run(c.segments, 0, [])
  }

  predicate CoversAt(m: map<nat, bytes>, o: nat, j: nat) {
    o in m && o <= j < o + |m[o]|
  }

  ghost predicate Covered(m: map<nat, bytes>, j: nat) {
    exists o: nat :: CoversAt(m, o, j)
  }

  /** `b` is the byte at `j` of the lowest segment that covers `j`. */
  ghost predicate LowestByte(m: map<nat, bytes>, j: nat, b: byte) {
    exists o: nat :: CoversAt(m, o, j) && m[o][j - o] == b && forall p: nat :: p < o ==> !CoversAt(m, p, j)
  }

  /** What the walk has established when it is about to look at offset `i`. */
  ghost predicate Walked(m: map<nat, bytes>, i: nat, out: bytes) {
    && (forall j :: 0 <= j < |out| ==> LowestByte(m, j, out[j]))
    && (forall o: nat :: o in m && o < i ==> o + |m[o]| <= |out|)
  }

  /** One segment that reaches past the run extends it, and every byte it adds is the lowest of its kind. */
  lemma WalkedStep(m: map<nat, bytes>, i: nat, out: bytes)
    requires Walked(m, i, out) && i in m && i <= |out| < i + |m[i]|
    ensures Walked(m, i + 1, out + m[i][|out| - i..])
  {
    var out' := out + m[i][|out| - i..];
    forall j | |out| <= j < |out'|
      ensures LowestByte(m, j, out'[j])
    {
      assert CoversAt(m, i, j) && m[i][j - i] == out'[j];
    }
  }

  lemma {:induction false} RunWalks(m: map<nat, bytes>, i: nat, out: bytes)
    requires i <= MAX_BYTES + 1 && Walked(m, i, out)
    requires forall o: nat :: o in m ==> o <= MAX_BYTES
    ensures out <= Run(m, i, out)
    ensures forall j :: 0 <= j < |Run(m, i, out)| ==> LowestByte(m, j, Run(m, i, out)[j])
    ensures !Covered(m, |Run(m, i, out)|)
    decreases MAX_BYTES + 1 - i
  {
    if i <= MAX_BYTES && (i !in m || i <= |out|) {
      if i in m && i + |m[i]| > |out| {
        WalkedStep(m, i, out);
        RunWalks(m, i + 1, out + m[i][|out| - i..]);
      } else {
        RunWalks(m, i + 1, out);
      }
    }
  }

  /**
   * `prefix` is exactly the longest run from zero: every byte of it comes from the lowest retained segment covering
   * its position, and no retained segment covers the position after it.
   */
  lemma PrefixIsLongestRun(c: Pieces)
    requires Valid(c)
    ensures forall j :: 0 <= j < |Contiguous(c)| ==> LowestByte(c.segments, j, Contiguous(c)[j])
    ensures !Covered(c.segments, |Contiguous(c)|)
  {
    hide SumBelow, Run;
    RunWalks(c.segments, 0, []);
  }

  // ---------------------------------------------------------------- frames of one byte stream

  /** `data` is what `s` holds at `offset`. */
  predicate SliceOf(s: bytes, offset: nat, data: bytes) {
    offset + |data| <= |s| && s[offset..offset + |data|] == data
  }

  ghost predicate AllSlices(s: bytes, m: map<nat, bytes>) {
    forall o: nat :: o in m ==> SliceOf(s, o, m[o])
  }

  lemma AddKeepsSlices(s: bytes, c: Pieces, offset: nat, data: bytes)
    requires AllSlices(s, c.segments) && SliceOf(s, offset, data)
    ensures AllSlices(s, Added(c, offset, data).segments)
  {
    if Retains(c, offset, data) {
      var kept := Take(data, MAX_BYTES - c.total);
      assert s[offset..offset + |kept|] == data[..|kept|];
    }
  }

  /** A byte that comes from a segment of the stream is the stream's byte at that position. */
  lemma ByteOfStream(s: bytes, m: map<nat, bytes>, j: nat, b: byte)
    requires AllSlices(s, m) && LowestByte(m, j, b)
    ensures j < |s| && s[j] == b
  {
    var o: nat :| CoversAt(m, o, j) && m[o][j - o] == b;
    assert SliceOf(s, o, m[o]);
    assert s[o..o + |m[o]|][j - o] == s[j];
  }

  /** Segments of one stream reassemble to a prefix of it. */
  lemma PrefixOfStream(s: bytes, c: Pieces)
    requires Valid(c) && AllSlices(s, c.segments)
    ensures Contiguous(c) <= s
  {
    hide SumBelow, Run, Contiguous, LowestByte, AllSlices, Valid, Covered;
    PrefixIsLongestRun(c);
    var p := Contiguous(c);
    if p != [] {
      ByteOfStream(s, c.segments, |p| - 1, p[|p| - 1]);
    }
    forall j | 0 <= j < |p|
      ensures p[j] == s[j]
    {
      ByteOfStream(s, c.segments, j, p[j]);
    }
  }

  /** A run reaches past every position below which there is no hole. */
  lemma PrefixReaches(c: Pieces, n: nat)
    requires Valid(c) && forall j :: 0 <= j < n ==> Covered(c.segments, j)
    ensures |Contiguous(c)| >= n
  {
    PrefixIsLongestRun(c);
  }

  /** Another frame of the same stream never takes bytes back: the run only grows at its end. */
  lemma AddExtendsPrefix(s: bytes, c: Pieces, offset: nat, data: bytes)
    requires Valid(c) && AllSlices(s, c.segments) && SliceOf(s, offset, data)
    ensures Contiguous(c) <= Contiguous(Added(c, offset, data))
  {
    var c' := Added(c, offset, data);
    AddKeepsValid(c, offset, data);
    AddKeepsSlices(s, c, offset, data);
    PrefixIsLongestRun(c);
    PrefixOfStream(s, c);
    PrefixOfStream(s, c');
    hide SumBelow, Run, Contiguous;
    forall j | 0 <= j < |Contiguous(c)|
      ensures Covered(c'.segments, j)
    {
      assert LowestByte(c.segments, j, Contiguous(c)[j]);
      var o: nat :| CoversAt(c.segments, o, j) && c.segments[o][j - o] == Contiguous(c)[j];
      assert CoversAt(c'.segments, o, j);
    }
    PrefixReaches(c', |Contiguous(c)|);
  }

  // ---------------------------------------------------------------- any order, any duplicates

  function AddedAll(c: Pieces, frames: seq<CryptoFrame>): Pieces
    decreases |frames|
  {
    if frames == [] then c else AddedAll(Added(c, frames[0].offset, frames[0].data), frames[1..])
  }

  lemma {:induction false} AddedAllAppend(c: Pieces, a: seq<CryptoFrame>, b: seq<CryptoFrame>)
    ensures AddedAll(c, a + b) == AddedAll(AddedAll(c, a), b)
    decreases |a|
  {
    hide Added;
    if a == [] {
      assert a + b == b;
    } else {
      assert (a + b)[1..] == a[1..] + b;
      AddedAllAppend(Added(c, a[0].offset, a[0].data), a[1..], b);
    }
  }

  lemma {:induction false} AddAllKeeps(s: bytes, c: Pieces, frames: seq<CryptoFrame>)
    requires Valid(c) && AllSlices(s, c.segments) && forall f :: f in frames ==> SliceOf(s, f.offset, f.data)
    ensures Valid(AddedAll(c, frames)) && AllSlices(s, AddedAll(c, frames).segments)
    ensures Contiguous(c) <= Contiguous(AddedAll(c, frames))
    decreases |frames|
  {
    hide Valid, AllSlices, SliceOf, Added, Contiguous;
    if frames != [] {
      var f := frames[0];
      assert f in frames;
      AddKeepsValid(c, f.offset, f.data);
      AddKeepsSlices(s, c, f.offset, f.data);
      AddExtendsPrefix(s, c, f.offset, f.data);
      assert forall g :: g in frames[1..] ==> g in frames;
      AddAllKeeps(s, Added(c, f.offset, f.data), frames[1..]);
    }
  }

  /**
   * After any sequence of frames that are slices of one stream, wrong order, overlaps and repeats included: the caps
   * hold, the run is a prefix of the stream, and it extends whatever the run was at any earlier point.
   */
  lemma AnyFramesOfStream(s: bytes, before: seq<CryptoFrame>, after: seq<CryptoFrame>)
    requires forall f :: f in before + after ==> SliceOf(s, f.offset, f.data)
    ensures Valid(AddedAll(EMPTY, before + after))
    ensures Contiguous(AddedAll(EMPTY, before)) <= Contiguous(AddedAll(EMPTY, before + after)) <= s
  {
    hide AddedAll, Contiguous, Valid, SliceOf, AllSlices;
    assert forall f :: f in before || f in after ==> f in before + after;
    EmptyValid();
    assert AllSlices(s, EMPTY.segments) by { NoSlices(s); }
    AddAllKeeps(s, EMPTY, before);
    AddedAllAppend(EMPTY, before, after);
    AddAllKeeps(s, AddedAll(EMPTY, before), after);
    PrefixOfStream(s, AddedAll(EMPTY, before + after));
  }

  lemma NoSlices(s: bytes)
    ensures AllSlices(s, map[])
  {
  }

  /** `parts` cuts `s` into at most 64 non-empty frames, listed by offset, leaving no hole. */
  ghost predicate Cuts(s: bytes, parts: seq<CryptoFrame>) {
    && |parts| <= MAX_FRAMES
    && (forall i :: 0 <= i < |parts| ==> parts[i].data != [] && SliceOf(s, parts[i].offset, parts[i].data))
    && (forall i, j :: 0 <= i < j < |parts| ==> parts[i].offset + |parts[i].data| <= parts[j].offset)
    && (forall p :: 0 <= p < |s| ==> Reached(parts, p))
  }

  ghost predicate Reached(parts: seq<CryptoFrame>, p: nat) {
    exists i :: 0 <= i < |parts| && parts[i].offset <= p < parts[i].offset + |parts[i].data|
  }

  /** Every retained segment is one of the parts, whole. */
  ghost predicate OnlyParts(m: map<nat, bytes>, parts: seq<CryptoFrame>) {
    forall o: nat :: o in m ==> CryptoFrame(o, m[o]) in parts
  }

  ghost predicate Disjoint(m: map<nat, bytes>) {
    forall o: nat, p: nat :: o in m && p in m && o < p ==> o + |m[o]| <= p
  }

  /** Disjoint segments that end by `e` hold at most `e` bytes. */
  lemma {:induction false} SumOfDisjoint(m: map<nat, bytes>, n: nat, e: nat)
    requires Disjoint(m) && forall o: nat :: o in m && o < n ==> o + |m[o]| <= e
    ensures SumBelow(m, n) <= e
    decreases n
  {
    if n > 0 {
      if n - 1 in m {
        SumOfDisjoint(m, n - 1, n - 1);
      } else {
        SumOfDisjoint(m, n - 1, e);
      }
    }
  }

  lemma PartsAreDisjoint(s: bytes, m: map<nat, bytes>, parts: seq<CryptoFrame>)
    requires Cuts(s, parts) && OnlyParts(m, parts)
    ensures Disjoint(m) && AllSlices(s, m)
  {
    forall o: nat, p: nat | o in m && p in m && o < p
      ensures o + |m[o]| <= p
    {
      var i :| 0 <= i < |parts| && parts[i] == CryptoFrame(o, m[o]);
      var j :| 0 <= j < |parts| && parts[j] == CryptoFrame(p, m[p]);
    }
  }

  ghost function Offsets(parts: seq<CryptoFrame>): set<nat> {
    set i | 0 <= i < |parts| :: parts[i].offset
  }

  lemma {:induction false} FewOffsets(parts: seq<CryptoFrame>)
    ensures |Offsets(parts)| <= |parts|
  {
    if parts == [] {
      assert Offsets(parts) == {};
    } else {
      var last := |parts| - 1;
      FewOffsets(parts[..last]);
      assert Offsets(parts) == Offsets(parts[..last]) + {parts[last].offset};
    }
  }

  /** Segments that are parts hold no more bytes than the stream. */
  lemma PartsHoldAtMost(s: bytes, m: map<nat, bytes>, parts: seq<CryptoFrame>)
    requires |s| <= MAX_BYTES && Cuts(s, parts) && OnlyParts(m, parts)
    ensures SumBelow(m, MAX_BYTES + 1) <= |s|
  {
    hide SumBelow;
    PartsAreDisjoint(s, m, parts);
    hide Cuts, OnlyParts;
    assert forall o: nat :: o in m ==> SliceOf(s, o, m[o]);
    SumOfDisjoint(m, MAX_BYTES + 1, |s|);
  }

  /** Segments that are parts are no more than the parts. */
  lemma PartsAreFew(m: map<nat, bytes>, parts: seq<CryptoFrame>)
    requires OnlyParts(m, parts)
    ensures |m| <= |parts|
  {
    forall o: nat | o in m
      ensures o in Offsets(parts)
    {
      var i :| 0 <= i < |parts| && parts[i] == CryptoFrame(o, m[o]);
    }
    FewOffsets(parts);
    SubsetSize(m.Keys, Offsets(parts));
  }

  /** A part not seen before always finds room, whole. */
  lemma PartFits(s: bytes, c: Pieces, parts: seq<CryptoFrame>, f: CryptoFrame)
    requires |s| <= MAX_BYTES && Cuts(s, parts) && Valid(c) && OnlyParts(c.segments, parts)
    requires f in parts && f.offset !in c.segments
    ensures Retains(c, f.offset, f.data) && c.total + |f.data| <= MAX_BYTES
    ensures OnlyParts(c.segments[f.offset := f.data], parts)
  {
    hide SumBelow;
    var m := c.segments[f.offset := f.data];
    assert OnlyParts(m, parts);
    assert SliceOf(s, f.offset, f.data) && f.data != [];
    assert |parts| <= MAX_FRAMES;
    hide Cuts, OnlyParts;
    PartsHoldAtMost(s, m, parts);
    SumOfUpdate(c.segments, f.offset, f.data, MAX_BYTES + 1);
    PartsAreFew(m, parts);
    assert m.Keys == c.segments.Keys + {f.offset};
  }

  /** Two parts at the same offset are the same part. */
  lemma PartsByOffset(s: bytes, parts: seq<CryptoFrame>, f: CryptoFrame, g: CryptoFrame)
    requires Cuts(s, parts) && f in parts && g in parts && f.offset == g.offset
    ensures f == g
  {
    var i :| 0 <= i < |parts| && parts[i] == f;
    var j :| 0 <= j < |parts| && parts[j] == g;
    assert i == j;
  }

  /** Whatever order parts arrive in, every delivered part ends up retained whole and nothing else is retained. */
  lemma {:induction false} AddAllRetains(s: bytes, c: Pieces, parts: seq<CryptoFrame>, frames: seq<CryptoFrame>)
    requires |s| <= MAX_BYTES && Cuts(s, parts) && Valid(c) && OnlyParts(c.segments, parts)
    requires forall f :: f in frames ==> f in parts
    ensures var m := AddedAll(c, frames).segments;
            && Valid(AddedAll(c, frames)) && OnlyParts(m, parts)
            && (forall o: nat :: o in c.segments ==> o in m)
            && (forall f :: f in frames ==> f.offset in m && m[f.offset] == f.data)
    decreases |frames|
  {
    hide SumBelow;
    if frames != [] {
      var f := frames[0];
      assert f in frames;
      var c' := Added(c, f.offset, f.data);
      AddKeepsValid(c, f.offset, f.data);
      if f.offset !in c.segments {
        PartFits(s, c, parts, f);
        assert c'.segments == c.segments[f.offset := f.data];
      }
      hide Cuts, Valid, OnlyParts, Added;
      assert forall g :: g in frames[1..] ==> g in frames;
      AddAllRetains(s, c', parts, frames[1..]);
      var m := AddedAll(c', frames[1..]).segments;
      forall g | g in frames
        ensures g.offset in m && m[g.offset] == g.data
      {
        if g !in frames[1..] {
          assert g == f;
          RetainedWhole(s, m, parts, f);
        }
      }
    }
  }

  lemma RetainedWhole(s: bytes, m: map<nat, bytes>, parts: seq<CryptoFrame>, f: CryptoFrame)
    requires Cuts(s, parts) && OnlyParts(m, parts) && f in parts && f.offset in m
    ensures m[f.offset] == f.data
  {
    hide Cuts;
    PartsByOffset(s, parts, f, CryptoFrame(f.offset, m[f.offset]));
  }

  /**
   * Any stream of at most 16384 bytes, cut into at most 64 frames and delivered in any order with any repetition,
   * is reassembled whole.
   */
  lemma AnyOrderReassembles(s: bytes, parts: seq<CryptoFrame>, delivered: seq<CryptoFrame>)
    requires |s| <= MAX_BYTES && Cuts(s, parts)
    requires (forall f :: f in delivered ==> f in parts) && forall f :: f in parts ==> f in delivered
    ensures Valid(AddedAll(EMPTY, delivered)) && Contiguous(AddedAll(EMPTY, delivered)) == s
  {
    hide SumBelow, AddedAll, Contiguous;
    EmptyValid();
    AddAllRetains(s, EMPTY, parts, delivered);
    var c := AddedAll(EMPTY, delivered);
    PartsAreDisjoint(s, c.segments, parts);
    PartsCover(s, c.segments, parts);
    hide Valid, Cuts;
    PrefixOfStream(s, c);
    PrefixReaches(c, |s|);
  }

  /** Once every part is held, no position of the stream is uncovered. */
  lemma PartsCover(s: bytes, m: map<nat, bytes>, parts: seq<CryptoFrame>)
    requires Cuts(s, parts) && forall f :: f in parts ==> f.offset in m && m[f.offset] == f.data
    ensures forall p :: 0 <= p < |s| ==> Covered(m, p)
  {
    forall p | 0 <= p < |s|
      ensures Covered(m, p)
    {
      assert Reached(parts, p);
      var i :| 0 <= i < |parts| && parts[i].offset <= p < parts[i].offset + |parts[i].data|;
      assert parts[i] in parts;
      assert CoversAt(m, parts[i].offset, p);
    }
  }

  // ---------------------------------------------------------------- overlapping and re-cut frames

  /** Pieces of one stream make up the whole of it exactly when they leave no position uncovered. */
  lemma WholeIffCovered(s: bytes, c: Pieces)
    requires Valid(c) && AllSlices(s, c.segments)
    ensures Contiguous(c) == s <==> forall p :: 0 <= p < |s| ==> Covered(c.segments, p)
  {
    PrefixIsLongestRun(c);
    PrefixOfStream(s, c);
    hide SumBelow, Contiguous;
    if Contiguous(c) == s {
      forall p | 0 <= p < |s|
        ensures Covered(c.segments, p)
      {
        assert LowestByte(c.segments, p, s[p]);
      }
    } else {
      assert |Contiguous(c)| < |s|;
    }
  }

  /** A frame that carries something, at an offset where no earlier frame did. */
  predicate FirstAt(frames: seq<CryptoFrame>, i: nat) {
    && i < |frames| && frames[i].data != []
    && forall j :: 0 <= j < i && frames[j].data != [] ==> frames[j].offset != frames[i].offset
  }

  /** Position `p` is covered by a frame that is the first delivered at its offset. */
  ghost predicate FirstCovers(frames: seq<CryptoFrame>, p: nat) {
    exists i: nat :: FirstAt(frames, i) && frames[i].offset <= p < frames[i].offset + |frames[i].data|
  }

  /** The first frame at each offset, empty frames aside. */
  function Firsts(frames: seq<CryptoFrame>): map<nat, bytes> {
    if frames == [] then map[]
    else
      var before, f := Firsts(frames[..|frames| - 1]), frames[|frames| - 1];
      if f.data == [] || f.offset in before then before else before[f.offset := f.data]
  }

  /** The first frames at each offset, taken together, stay within what `add` retains. */
  ghost predicate FitsCaps(m: map<nat, bytes>) {
    && |m| <= MAX_FRAMES && SumBelow(m, MAX_BYTES + 1) <= MAX_BYTES
    && forall o: nat :: o in m ==> o <= MAX_BYTES
  }

  lemma {:induction false} FirstsNotEmpty(frames: seq<CryptoFrame>)
    ensures forall o: nat :: o in Firsts(frames) ==> Firsts(frames)[o] != []
  {
    if frames != [] {
      FirstsNotEmpty(frames[..|frames| - 1]);
    }
  }

  /** A frame that is the first at its offset is the one kept there. */
  lemma {:induction false} FirstIsKept(frames: seq<CryptoFrame>, i: nat)
    requires FirstAt(frames, i)
    ensures frames[i].offset in Firsts(frames) && Firsts(frames)[frames[i].offset] == frames[i].data
    decreases |frames|
  {
    var n := |frames| - 1;
    var before := frames[..n];
    if i < n {
      assert FirstAt(before, i);
      FirstIsKept(before, i);
    } else if frames[n].offset in Firsts(before) {
      var j := KeptIsFirst(before, frames[n].offset);
      assert false;
    }
  }

  /** What is kept at an offset is the first frame there. */
  lemma {:induction false} KeptIsFirst(frames: seq<CryptoFrame>, o: nat) returns (i: nat)
    requires o in Firsts(frames)
    ensures FirstAt(frames, i) && frames[i].offset == o && Firsts(frames)[o] == frames[i].data
    decreases |frames|
  {
    var n := |frames| - 1;
    var before := frames[..n];
    if o in Firsts(before) {
      i := KeptIsFirst(before, o);
      assert FirstAt(frames, i);
    } else {
      i := n;
      if !FirstAt(frames, n) {
        var j :| 0 <= j < n && frames[j].data != [] && frames[j].offset == o;
        var k := FirstSame(before, j);
        FirstIsKept(before, k);
        assert false;
      }
    }
  }

  /** Every offset at which something was delivered has a first frame. */
  lemma {:induction false} FirstSame(frames: seq<CryptoFrame>, j: nat) returns (i: nat)
    requires j < |frames| && frames[j].data != []
    ensures FirstAt(frames, i) && frames[i].offset == frames[j].offset
    decreases j
  {
    i := j;
    if !FirstAt(frames, j) {
      var k :| 0 <= k < j && frames[k].data != [] && frames[k].offset == frames[j].offset;
      i := FirstSame(frames, k);
    }
  }

  /** A kept frame fits in front of the caps, so it is retained whole. */
  lemma FirstFits(m: map<nat, bytes>, o: nat, data: bytes)
    requires o !in m && data != [] && FitsCaps(m[o := data])
    ensures FitsCaps(m)
    ensures Added(Pieces(m, SumBelow(m, MAX_BYTES + 1)), o, data)
         == Pieces(m[o := data], SumBelow(m[o := data], MAX_BYTES + 1))
  {
    var all := m[o := data];
    SumOfUpdate(m, o, data, MAX_BYTES + 1);
    hide SumBelow;
    assert all.Keys == m.Keys + {o};
    assert all[o] == data && o <= MAX_BYTES;
    assert forall x: nat :: x in m ==> x in all && m[x] == all[x];
  }

  /** Within the caps, exactly the first frame at each offset is retained, and whole. */
  lemma {:induction false} RetainsFirsts(frames: seq<CryptoFrame>)
    requires FitsCaps(Firsts(frames))
    ensures AddedAll(EMPTY, frames) == Pieces(Firsts(frames), SumBelow(Firsts(frames), MAX_BYTES + 1))
  {
    hide SumBelow, FitsCaps;
    if frames == [] {
      SumOfNothing(MAX_BYTES + 1);
    } else {
      var before, f := frames[..|frames| - 1], frames[|frames| - 1];
      var m := Firsts(before);
      if f.offset !in m && f.data != [] {
        FirstFits(m, f.offset, f.data);
      }
      RetainsFirsts(before);
      assert frames == before + [f];
      AddedAllAppend(EMPTY, before, [f]);
      assert [f][1..] == [];
    }
  }

  lemma FirstsAreSlices(s: bytes, frames: seq<CryptoFrame>)
    requires forall f :: f in frames ==> SliceOf(s, f.offset, f.data)
    ensures AllSlices(s, Firsts(frames))
  {
    hide Firsts;
    forall o: nat | o in Firsts(frames)
      ensures SliceOf(s, o, Firsts(frames)[o])
    {
      var i := KeptIsFirst(frames, o);
      assert frames[i] in frames;
    }
  }

  lemma FirstsCover(frames: seq<CryptoFrame>, p: nat)
    ensures Covered(Firsts(frames), p) <==> FirstCovers(frames, p)
  {
    hide Firsts;
    if Covered(Firsts(frames), p) {
      var o: nat :| CoversAt(Firsts(frames), o, p);
      var i := KeptIsFirst(frames, o);
    }
    if FirstCovers(frames, p) {
      var i: nat :| FirstAt(frames, i) && frames[i].offset <= p < frames[i].offset + |frames[i].data|;
      FirstIsKept(frames, i);
      assert CoversAt(Firsts(frames), frames[i].offset, p);
    }
  }

  /**
   * However a stream was cut, re-cut and overlapped, and in whatever order it arrived: as long as the frames that are
   * first at their offsets fit the caps, it is reassembled whole if and only if those frames cover all of it.
   */
  lemma ReassemblesIffFirstsCover(s: bytes, delivered: seq<CryptoFrame>)
    requires forall f :: f in delivered ==> SliceOf(s, f.offset, f.data)
    requires FitsCaps(Firsts(delivered))
    ensures Contiguous(AddedAll(EMPTY, delivered)) == s <==> forall p :: 0 <= p < |s| ==> FirstCovers(delivered, p)
  {
    hide SumBelow, Contiguous, Firsts, AddedAll, FirstCovers, Covered;
    RetainsFirsts(delivered);
    FirstsNotEmpty(delivered);
    FirstsAreSlices(s, delivered);
    forall p: nat
      ensures Covered(Firsts(delivered), p) <==> FirstCovers(delivered, p)
    {
      FirstsCover(delivered, p);
    }
    WholeIffCovered(s, AddedAll(EMPTY, delivered));
  }

  /**
   * What that costs: a frame at an offset already held is ignored, however much longer it is. If nothing else covers
   * its first extra byte, the stream is not whole, although the longer frame alone would have covered it.
   */
  lemma LongerFrameIgnored(s: bytes, c: Pieces, offset: nat, data: bytes)
    requires Valid(c) && AllSlices(s, c.segments) && SliceOf(s, offset, data)
    requires offset in c.segments && |data| > |c.segments[offset]|
    requires !Covered(c.segments, offset + |c.segments[offset]|)
    ensures Added(c, offset, data) == c && |Contiguous(c)| <= offset + |c.segments[offset]| < |s|
    ensures Contiguous(Added(c, offset, data)) != s
    ensures Covered(c.segments[offset := data], offset + |c.segments[offset]|)
  {
    var p := offset + |c.segments[offset]|;
    WholeIffCovered(s, c);
    PrefixIsLongestRun(c);
    hide SumBelow, Contiguous;
    assert CoversAt(c.segments[offset := data], offset, p);
    forall j | 0 <= j < |Contiguous(c)|
      ensures Covered(c.segments, j)
    {
      assert LowestByte(c.segments, j, Contiguous(c)[j]);
    }
  }

  // ---------------------------------------------------------------- the object

  /** `cryptoStream`: a map of segments and a running total, updated in place. */
  class Stream {
    var segments: map<nat, bytes>
    var total: nat

    constructor ()
      ensures Contents() == EMPTY
    {
      segments, total := map[], 0;
    }

    function Contents(): Pieces
      reads this
    {
      Pieces(segments, total)
    }

    method Add(offset: nat, frame: bytes)
      modifies this
      ensures Contents() == Added(old(Contents()), offset, frame)
      ensures Valid(old(Contents())) ==> Valid(Contents())
    {
      if Valid(Contents()) {
        AddKeepsValid(Contents(), offset, frame);
      }
      hide Valid;
      if |frame| == 0 || total >= MAX_BYTES || |segments| >= MAX_FRAMES {
        return;
      }
      if offset > MAX_BYTES {
        return;
      }
      if offset in segments {
        return;
      }
      var data := frame;
      var room := MAX_BYTES - total;
      if |data| > room {
        data := data[..room];
      }
      segments := segments[offset := data];
      total := total + |data|;
    }

    method SortedOffsets() returns (offsets: seq<nat>)
      ensures forall o: nat :: o in offsets <==> o in segments
      ensures forall i, j :: 0 <= i < j < |offsets| ==> offsets[i] < offsets[j]
    {
      var left := segments.Keys;
      offsets := [];
      while left != {}
        invariant left <= segments.Keys
        invariant forall o: nat :: o in segments <==> o in left || o in offsets
        invariant forall i, j :: 0 <= i < j < |offsets| ==> offsets[i] < offsets[j]
        invariant forall i, o: nat :: 0 <= i < |offsets| && o in left ==> offsets[i] < o
        decreases |left|
      {
        var some :| some in left;
        LeastExists(left, some);
        var least: nat :| least in left && forall o: nat :: o in left ==> least <= o;
        offsets := offsets + [least];
        left := left - {least};
      }
    }

    method Prefix() returns (out: bytes)
      requires Valid(Contents())
      ensures out == Contiguous(Contents())
    {
      hide SumBelow;
      out := [];
      if |segments| == 0 {
        RunSkips(segments, 0, MAX_BYTES + 1, []);
        return;
      }
      var offsets := SortedOffsets();
      var want := 0;
      ghost var next: nat := 0;
      for k := 0 to |offsets|
        invariant want == |out| && next <= MAX_BYTES + 1
        invariant Run(segments, next, out) == Run(segments, 0, [])
        invariant k > 0 ==> next == offsets[k - 1] + 1
        invariant k == 0 ==> next == 0
      {
        var off := offsets[k];
        assert off in offsets;
        NoneBetween(segments, offsets, k, next, off);
        RunSkips(segments, next, off, out);
        next := off + 1;
        var seg := segments[off];
        if off > want {
          return;
        }
        if off + |seg| <= want {
          continue;
        }
        out := out + seg[want - off..];
        want := off + |seg|;
      }
      NoneBetween(segments, offsets, |offsets|, next, MAX_BYTES + 1);
      RunSkips(segments, next, MAX_BYTES + 1, out);
    }
  }

  /** Sorted offsets leave nothing out: between two neighbours, and after the last, nothing is held. */
  lemma NoneBetween(m: map<nat, bytes>, offsets: seq<nat>, k: nat, lo: nat, hi: nat)
    requires forall o: nat :: o in offsets <==> o in m
    requires forall i, j :: 0 <= i < j < |offsets| ==> offsets[i] < offsets[j]
    requires k <= |offsets| && lo == (if k == 0 then 0 else offsets[k - 1] + 1) && (k < |offsets| ==> hi == offsets[k])
    ensures forall o: nat :: lo <= o < hi ==> o !in m
  {
    assert forall i :: 0 <= i < |offsets| ==> offsets[i] < lo || offsets[i] >= hi;
    forall o: nat | o in m
      ensures o < lo || o >= hi
    {
      assert o in offsets;
    }
  }

  lemma {:induction false} LeastExists(s: set<nat>, x: nat)
    requires x in s
    ensures exists m: nat :: m in s && forall o: nat :: o in s ==> m <= o
    decreases x
  {
    if y: nat :| y in s && y < x {
      LeastExists(s, y);
    }
  }

  /** Offsets nothing is held at do not matter to the walk. */
  lemma {:induction false} RunSkips(m: map<nat, bytes>, i: nat, stop: nat, out: bytes)
    requires i <= stop <= MAX_BYTES + 1 && forall o: nat :: i <= o < stop ==> o !in m
    ensures Run(m, i, out) == Run(m, stop, out)
    decreases stop - i
  {
    if i < stop {
      RunSkips(m, i + 1, stop, out);
    }
  }
}
