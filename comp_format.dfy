/** The compact segment encoding `CompImage` keeps its pixels in, and the
    segment lists `CompImageLoader` builds for one row: each segment is a
    color run (`[color, n]`) or raw bytes (`[0xFF, n, n bytes]`), with
    1 <= n <= 255. */
module CompFormat {
  import opened Common
  import opened DefFormat

  /** A segment of a row: a run of `size` pixels of one color, or raw
      pixels copied as they are. */
  datatype Segment = Run(color: Byte, size: nat) | Raw(bytes: seq<Byte>)

  /** A segment the format can hold: a run's color is not the raw marker
      0xFF, and every segment covers 1..255 pixels. */
  predicate WellFormedSegment(s: Segment) {
    match s
    case Run(color, size) => color != 0xFF && 1 <= size <= 255
    case Raw(bytes) => 1 <= |bytes| <= 255
  }

  predicate WellFormed(segs: seq<Segment>) {
    forall i :: 0 <= i < |segs| ==> WellFormedSegment(segs[i])
  }

  /** The bytes of one segment. */
  function SegmentBytes(s: Segment): (b: seq<Byte>)
    requires WellFormedSegment(s)
    ensures |b| >= 2 && b[1] >= 1
    ensures s.Run? ==> b == [s.color, s.size]
    ensures s.Raw? ==> b[0] == 0xFF && b[1] == |s.bytes| && b[2..] == s.bytes
  {
    match s
    case Run(color, size) => [color, size]
    case Raw(bytes) => [0xFF, |bytes|] + bytes
  }

  /** The bytes of a row of segments, in order. */
  function Encode(segs: seq<Segment>): seq<Byte>
    requires WellFormed(segs)
  {
    if segs == [] then [] else SegmentBytes(segs[0]) + Encode(segs[1..])
  }

  /** The pixels a row of segments stands for. */
  function Pixels(segs: seq<Segment>): seq<Byte>
  {
    if segs == [] then [] else SegmentPixels(segs[0]) + Pixels(segs[1..])
  }

  function SegmentPixels(s: Segment): seq<Byte>
  {
    match s
    case Run(color, size) => Repeat(color, size)
    case Raw(bytes) => bytes
  }

  lemma {:induction false} EncodeSnoc(segs: seq<Segment>, s: Segment)
    requires WellFormed(segs) && WellFormedSegment(s)
    ensures WellFormed(segs + [s])
    ensures Encode(segs + [s]) == Encode(segs) + SegmentBytes(s)
    decreases |segs|
  {
    var t := segs + [s];
    assert WellFormed([s]);
    WellFormedAppend(segs, [s]);
    if segs == [] {
      assert t == [s] && [s][1..] == [];
    } else {
      assert t[0] == segs[0] && t[1..] == segs[1..] + [s];
      EncodeSnoc(segs[1..], s);
      assert Encode(t) == SegmentBytes(segs[0]) + (Encode(segs[1..]) + SegmentBytes(s));
      AppendAssoc(SegmentBytes(segs[0]), Encode(segs[1..]), SegmentBytes(s));
    }
  }

  lemma {:induction false} PixelsSnoc(segs: seq<Segment>, s: Segment)
    ensures Pixels(segs + [s]) == Pixels(segs) + SegmentPixels(s)
    decreases |segs|
  {
    if segs == [] {
      assert [s][1..] == [];
    } else {
      assert (segs + [s])[1..] == segs[1..] + [s];
      PixelsSnoc(segs[1..], s);
    }
  }

  /** Reads the segments back: a row's bytes split into color runs and raw
      blocks, or `None` when a segment is cut short or has size 0. */
  function Parse(b: seq<Byte>): (r: Option<seq<Segment>>)
    decreases |b|
  {
    if b == [] then Some([])
    else if |b| < 2 || b[1] == 0 then None
    else if b[0] == 0xFF then
      var n: nat := b[1];
      if |b| < 2 + n then None
      else match Parse(b[2 + n..])
        case None => None
        case Some(rest) => Some([Raw(b[2..2 + n])] + rest)
    else
      match Parse(b[2..])
      case None => None
      case Some(rest) => Some([Run(b[0], b[1])] + rest)
  }

  /** Encoding is lossless: parsing the bytes of well-formed segments gives
      the segments back. */
  lemma {:induction false} ParseEncode(segs: seq<Segment>)
    requires WellFormed(segs)
    ensures Parse(Encode(segs)) == Some(segs)
    decreases |segs|
  {
    if segs != [] {
      var s, rest := segs[0], segs[1..];
      WellFormedSplit(segs);
      var e := Encode(rest);
      ParseEncode(rest);
      ParseSegment(s, e);
      assert Encode(segs) == SegmentBytes(s) + e;
      assert [s] + rest == segs;
    }
  }

  lemma WellFormedSplit(segs: seq<Segment>)
    requires WellFormed(segs) && segs != []
    ensures WellFormedSegment(segs[0]) && WellFormed(segs[1..])
  {
    assert WellFormedSegment(segs[0]);
    forall i | 0 <= i < |segs[1..]|
      ensures WellFormedSegment(segs[1..][i])
    {
      assert segs[1..][i] == segs[i + 1];
    }
  }

  /** Parsing reads one segment off the front of the bytes. */
  lemma ParseSegment(s: Segment, rest: seq<Byte>)
    requires WellFormedSegment(s)
    ensures Parse(rest).Some? ==> Parse(SegmentBytes(s) + rest) == Some([s] + Parse(rest).value)
  {
    var b := SegmentBytes(s) + rest;
    if s.Raw? {
      var n: nat := |s.bytes|;
      assert b[0] == 0xFF && b[1] == n;
      assert b[2 + n..] == rest;
      assert b[2..2 + n] == s.bytes;
    } else {
      assert b[0] == s.color && b[1] == s.size;
      assert b[2..] == rest;
    }
  }

  /** `typeOf`: 0 for the transparent color 0, 1 for a color whose palette
      alpha is not 255 (semi-transparent), 2 for an opaque color. */
  function TypeOf(palette: seq<Color>, c: Byte): nat
    requires |palette| == PALETTE_SIZE
  {
    if c == 0 then 0 else if palette[c].a != 255 then 1 else 2
  }

  /** Every raw segment holds pixels of a single type: opaque and
      semi-transparent pixels never share one. */
  predicate Homogeneous(segs: seq<Segment>, palette: seq<Color>)
    requires |palette| == PALETTE_SIZE
  {
    forall i, j :: 0 <= i < |segs| && segs[i].Raw? && 0 <= j < |segs[i].bytes| ==>
      TypeOf(palette, segs[i].bytes[j]) == TypeOf(palette, segs[i].bytes[0])
  }

  /** New runs of `color` for `size` pixels: runs of 255 while more than 255
      remain, then one run for the rest. */
  function NewRuns(cur: seq<Segment>, color: Byte, size: nat): (r: seq<Segment>)
    requires color != 0xFF
    ensures WellFormed(cur) ==> WellFormed(r)
    ensures Pixels(r) == Pixels(cur) + Repeat(color, size)
    ensures |r| >= |cur| && r[..|cur|] == cur
    ensures forall i :: |cur| <= i < |r| ==> r[i].Run? && r[i].color == color
    decreases size
  {
    if size > 255 then
      PixelsSnoc(cur, Run(color, 255));
      var r := NewRuns(cur + [Run(color, 255)], color, size - 255);
      assert Repeat(color, 255) + Repeat(color, size - 255) == Repeat(color, size);
      r
    else if size > 0 then
      PixelsSnoc(cur, Run(color, size));
      cur + [Run(color, size)]
    else
      assert Pixels(cur) + [] == Pixels(cur);
      cur
  }

  /** The runs `load(size, color)` creates: `size / 255` runs of 255
      followed by one run of the remainder when there is one, so their sizes
      add up to `size`. */
  function RunsOf(color: Byte, size: nat): seq<Segment>
  {
    seq(size / 255, _ => Run(color, 255)) + (if size % 255 > 0 then [Run(color, size % 255)] else [])
  }

  lemma {:induction false} NewRunsShape(cur: seq<Segment>, color: Byte, size: nat)
    requires color != 0xFF
    ensures NewRuns(cur, color, size) == cur + RunsOf(color, size)
    decreases size
  {
    if size > 255 {
      NewRunsShape(cur + [Run(color, 255)], color, size - 255);
      assert (size - 255) / 255 == size / 255 - 1 && (size - 255) % 255 == size % 255;
      assert [Run(color, 255)] + seq((size - 255) / 255, _ => Run(color, 255)) == seq(size / 255, _ => Run(color, 255));
    } else if size == 255 {
      assert RunsOf(color, size) == [Run(color, 255)];
    } else if size > 0 {
      assert RunsOf(color, size) == [Run(color, size)];
    } else {
      assert RunsOf(color, size) == [];
    }
  }

  function Last(segs: seq<Segment>): Segment
    requires segs != []
  {
    segs[|segs| - 1]
  }

  /** Raw segments of `r` are those of `cur`, at the same place: whatever
      was added or changed is a color run. */
  predicate KeepsRaws(cur: seq<Segment>, r: seq<Segment>) {
    forall i :: 0 <= i < |r| && r[i].Raw? ==> i < |cur| && r[i] == cur[i]
  }

  lemma KeepsRawsHomogeneous(cur: seq<Segment>, r: seq<Segment>, palette: seq<Color>)
    requires |palette| == PALETTE_SIZE
    requires KeepsRaws(cur, r)
    ensures Homogeneous(cur, palette) ==> Homogeneous(r, palette)
  {
    if Homogeneous(cur, palette) {
      forall i, j | 0 <= i < |r| && r[i].Raw? && 0 <= j < |r[i].bytes|
        ensures TypeOf(palette, r[i].bytes[j]) == TypeOf(palette, r[i].bytes[0])
      {
        assert r[i] == cur[i];
      }
    }
  }

  /** The row with its last segment, a run, grown to `size`. */
  function WithLastRun(cur: seq<Segment>, size: nat): (r: seq<Segment>)
    requires cur != [] && Last(cur).Run?
  {
    cur[..|cur| - 1] + [Run(Last(cur).color, size)]
  }

  lemma WithLastRunPixels(cur: seq<Segment>, size: nat)
    requires cur != [] && Last(cur).Run?
    ensures size >= Last(cur).size ==>
              Pixels(cur) + Repeat(Last(cur).color, size - Last(cur).size) == Pixels(WithLastRun(cur, size))
    ensures WellFormed(cur) && 1 <= size <= 255 ==> WellFormed(WithLastRun(cur, size))
    ensures KeepsRaws(cur, WithLastRun(cur, size))
  {
    var front, last := cur[..|cur| - 1], Last(cur);
    SplitLast(cur);
    PixelsSnoc(front, last);
    PixelsSnoc(front, Run(last.color, size));
    if size >= last.size {
      assert Repeat(last.color, last.size) + Repeat(last.color, size - last.size) == Repeat(last.color, size);
    }
  }

  /** `load(size, color)` for a color other than 0xFF, on the open row: a
      run of the same color at the end of the row is first filled up to 255,
      and the rest goes into new runs. */
  function AddColor(cur: seq<Segment>, color: Byte, size: nat): seq<Segment>
    requires color != 0xFF && WellFormed(cur)
  {
    if size == 0 then cur
    else if cur != [] && Last(cur).Run? && Last(cur).color == color then
      assert WellFormedSegment(cur[|cur| - 1]);
      var toCopy := Min(size, 255 - Last(cur).size);
      WithLastRun(cur, Last(cur).size + toCopy) + RunsOf(color, size - toCopy)
    else
      cur + RunsOf(color, size)
  }

  /** The run merge keeps the row well formed, leaves its raw segments
      alone, and stores exactly the `size` pixels of `color` after those of
      the row. */
  lemma AddColorFacts(cur: seq<Segment>, color: Byte, size: nat)
    requires color != 0xFF && WellFormed(cur)
    ensures WellFormed(AddColor(cur, color, size)) && KeepsRaws(cur, AddColor(cur, color, size))
    ensures Pixels(AddColor(cur, color, size)) == Pixels(cur) + Repeat(color, size)
  {
    if size == 0 {
      assert Pixels(cur) + Repeat(color, 0) == Pixels(cur);
    } else if cur != [] && Last(cur).Run? && Last(cur).color == color {
      AddColorMerged(cur, color, size);
    } else {
      assert AddColor(cur, color, size) == cur + RunsOf(color, size);
      FreshRunsFacts(cur, color, size);
    }
  }

  /** `AddColorFacts` for a row that ends in a run of the same color. */
  lemma AddColorMerged(cur: seq<Segment>, color: Byte, size: nat)
    requires color != 0xFF && WellFormed(cur) && size > 0
    requires cur != [] && Last(cur).Run? && Last(cur).color == color
    ensures WellFormed(AddColor(cur, color, size)) && KeepsRaws(cur, AddColor(cur, color, size))
    ensures Pixels(AddColor(cur, color, size)) == Pixels(cur) + Repeat(color, size)
  {
    assert WellFormedSegment(cur[|cur| - 1]);
    var toCopy := Min(size, 255 - Last(cur).size);
    AddColorMergeShape(cur, color, size);
    MergedRunFacts(cur, color, toCopy, size - toCopy, AddColor(cur, color, size));
    assert toCopy + (size - toCopy) == size;
  }

  lemma AddColorMergeShape(cur: seq<Segment>, color: Byte, size: nat)
    requires color != 0xFF && WellFormed(cur) && size > 0
    requires cur != [] && Last(cur).Run? && Last(cur).color == color
    ensures Last(cur).size <= 255
    ensures AddColor(cur, color, size) ==
              WithLastRun(cur, Last(cur).size + Min(size, 255 - Last(cur).size)) +
              RunsOf(color, size - Min(size, 255 - Last(cur).size))
  {
    assert WellFormedSegment(cur[|cur| - 1]);
  }

  /** The branch of `AddColor` without a merge: new runs after the row. */
  lemma FreshRunsFacts(cur: seq<Segment>, color: Byte, size: nat)
    requires color != 0xFF && WellFormed(cur)
    ensures var r := cur + RunsOf(color, size);
      WellFormed(r) && KeepsRaws(cur, r) && Pixels(r) == Pixels(cur) + Repeat(color, size)
  {
    NewRunsShape(cur, color, size);
    var r := NewRuns(cur, color, size);
    forall i | 0 <= i < |r| && r[i].Raw?
      ensures i < |cur| && r[i] == cur[i]
    {
      assert i < |cur| && r[i] == r[..|cur|][i];
    }
  }

  /** The merge branch of `AddColor`: the last run grows by `toCopy` and
      runs for `rest` more pixels follow. */
  lemma MergedRunFacts(cur: seq<Segment>, color: Byte, toCopy: nat, rest: nat, r: seq<Segment>)
    requires color != 0xFF && WellFormed(cur) && cur != [] && Last(cur).Run? && Last(cur).color == color
    requires Last(cur).size + toCopy <= 255
    requires r == WithLastRun(cur, Last(cur).size + toCopy) + RunsOf(color, rest)
    ensures WellFormed(r) && KeepsRaws(cur, r) && Pixels(r) == Pixels(cur) + Repeat(color, toCopy + rest)
  {
    assert WellFormedSegment(cur[|cur| - 1]);
    var merged := WithLastRun(cur, Last(cur).size + toCopy);
    WithLastRunPixels(cur, Last(cur).size + toCopy);
    assert Last(cur).size + toCopy - Last(cur).size == toCopy;
    var p := Pixels(cur);
    assert Pixels(merged) == p + Repeat(color, toCopy);
    FreshRunsFacts(merged, color, rest);
    assert Pixels(r) == Pixels(merged) + Repeat(color, rest);
    RepeatAppend(p, color, toCopy, rest);
    KeepsRawsTrans(cur, merged, r);
  }

  lemma KeepsRawsTrans(a: seq<Segment>, b: seq<Segment>, c: seq<Segment>)
    requires KeepsRaws(a, b) && KeepsRaws(b, c)
    ensures KeepsRaws(a, c)
  {
    forall i | 0 <= i < |c| && c[i].Raw?
      ensures i < |a| && c[i] == a[i]
    {
      assert c[i] == b[i];
    }
  }

  lemma RepeatAppend(p: seq<Byte>, color: Byte, m: nat, n: nat)
    ensures (p + Repeat(color, m)) + Repeat(color, n) == p + Repeat(color, m + n)
  {
    assert Repeat(color, m) + Repeat(color, n) == Repeat(color, m + n);
  }

  /** The same step as the source writes it: the length byte of the run
      being filled is first set to 255 and then increased by the pixels it
      takes, so the 8-bit length wraps to `toCopy - 1` while those pixels
      are counted as stored. */
  function AddColorAsWritten(cur: seq<Segment>, color: Byte, size: nat): seq<Segment>
    requires color != 0xFF && WellFormed(cur)
  {
    if size == 0 then cur
    else if cur != [] && Last(cur).Run? && Last(cur).color == color then
      assert WellFormedSegment(cur[|cur| - 1]);
      var toCopy := Min(size, 255 - Last(cur).size);
      WithLastRun(cur, (255 + toCopy) % 256) + RunsOf(color, size - toCopy)
    else
      cur + RunsOf(color, size)
  }

  /** One step of the run loop: more than 255 pixels give a run of 255 and
      the runs for the rest; 1 to 255 pixels give one run. */
  lemma RunsOfStep(color: Byte, size: nat)
    ensures size > 255 ==> RunsOf(color, size) == [Run(color, 255)] + RunsOf(color, size - 255)
    ensures 0 < size <= 255 ==> RunsOf(color, size) == [Run(color, size)]
  {
    if size > 255 {
      assert (size - 255) / 255 == size / 255 - 1 && (size - 255) % 255 == size % 255;
      assert [Run(color, 255)] + seq((size - 255) / 255, _ => Run(color, 255)) == seq(size / 255, _ => Run(color, 255));
    } else if size == 255 {
      assert RunsOf(color, size) == [Run(color, 255)];
    } else if size > 0 {
      assert RunsOf(color, size) == [Run(color, size)];
    }
  }

  /** Counterexample for the run merge as written: continuing a run of `n`
      pixels (n < 255) with `size` more of its color leaves the row `n + 1`
      pixels short; the intended merge loses nothing. */
  lemma AddColorAsWrittenLosesPixels(cur: seq<Segment>, color: Byte, size: nat)
    requires color != 0xFF && WellFormed(cur) && size >= 1
    requires cur != [] && Last(cur).Run? && Last(cur).color == color && Last(cur).size < 255
    ensures |Pixels(AddColorAsWritten(cur, color, size))| + Last(cur).size + 1 == |Pixels(cur)| + size
    ensures |Pixels(AddColor(cur, color, size))| == |Pixels(cur)| + size
  {
    var n := Last(cur).size;
    var toCopy := Min(size, 255 - n);
    var front := cur[..|cur| - 1];
    var wrapped := WithLastRun(cur, toCopy - 1);
    SplitLast(cur);
    assert (255 + toCopy) % 256 == toCopy - 1;
    assert AddColorAsWritten(cur, color, size) == wrapped + RunsOf(color, size - toCopy);
    PixelsSnoc(front, Run(color, n));
    assert |Pixels(cur)| == |Pixels(front)| + n;
    PixelsSnoc(front, Run(color, toCopy - 1));
    assert |Pixels(wrapped)| == |Pixels(front)| + toCopy - 1;
    NewRunsShape(wrapped, color, size - toCopy);
    assert |Pixels(wrapped + RunsOf(color, size - toCopy))| == |Pixels(wrapped)| + size - toCopy;
    AddColorFacts(cur, color, size);
  }

  /** The length of the run of equal pixels at the start of `data`, counted
      on from `n`: it stops at the first pixel that differs or at the end. */
  function SameRun(data: seq<Byte>, n: nat): (r: nat)
    requires 1 <= n <= |data|
    requires forall k :: 0 <= k < n ==> data[k] == data[0]
    ensures n <= r <= |data|
    ensures forall k :: 0 <= k < r ==> data[k] == data[0]
    ensures r == |data| || data[r] != data[0]
    decreases |data| - n
  {
    if n < |data| && data[n] == data[0] then SameRun(data, n + 1) else n
  }

  /** The raw block length chosen as the source writes it, entering the
      do-while loop with `n` pixels taken: the next pixel is always taken,
      and the loop goes on while it had the first pixel's type and is not a
      second 0xFF. A pixel of another type thus ends up in the block. */
  function RawRunAsWritten(data: seq<Byte>, palette: seq<Color>, n: nat): (r: nat)
    requires |palette| == PALETTE_SIZE && 1 <= n < |data|
    ensures n < r <= |data|
    decreases |data| - n
  {
    var color2 := data[n];
    if n + 1 < |data| && TypeOf(palette, data[0]) == TypeOf(palette, color2) && (color2 != 0xFF || color2 != data[0])
    then RawRunAsWritten(data, palette, n + 1)
    else n + 1
  }

  /** The intended raw block length: a pixel is taken only when it has the
      first pixel's type, so the block is of a single type. */
  function RawRun(data: seq<Byte>, palette: seq<Color>, n: nat): (r: nat)
    requires |palette| == PALETTE_SIZE && 1 <= n <= |data|
    requires forall k :: 0 <= k < n ==> TypeOf(palette, data[k]) == TypeOf(palette, data[0])
    ensures n <= r <= |data|
    ensures forall k :: 0 <= k < r ==> TypeOf(palette, data[k]) == TypeOf(palette, data[0])
    decreases |data| - n
  {
    if n < |data| && TypeOf(palette, data[n]) == TypeOf(palette, data[0]) then
      if n + 1 < |data| && (data[n] != 0xFF || data[n] != data[0]) then RawRun(data, palette, n + 1) else n + 1
    else n
  }

  /** On pixels of one type the two selections agree. */
  lemma {:induction false} RawRunAgrees(data: seq<Byte>, palette: seq<Color>, n: nat)
    requires |palette| == PALETTE_SIZE && 1 <= n < |data|
    requires forall k :: 0 <= k < |data| ==> TypeOf(palette, data[k]) == TypeOf(palette, data[0])
    ensures RawRunAsWritten(data, palette, n) == RawRun(data, palette, n)
    decreases |data| - n
  {
    if n + 1 < |data| && (data[n] != 0xFF || data[n] != data[0]) {
      RawRunAgrees(data, palette, n + 1);
    }
  }

  /** Counterexample for the raw block selection as written: a visible
      pixel followed by a transparent one become one raw block of two
      pixels of different types; the intended selection stops after the
      first. */
  lemma RawRunAsWrittenMixesTypes(palette: seq<Color>, c: Byte)
    requires |palette| == PALETTE_SIZE && c != 0
    ensures RawRunAsWritten([c, 0], palette, 1) == 2
    ensures TypeOf(palette, c) != TypeOf(palette, 0)
    ensures RawRun([c, 0], palette, 1) == 1
  {
  }

  /** The raw blocks `rest` is stored in: blocks of 255 while more than 255
      remain, then one block for the rest. */
  function RawBlocks(rest: seq<Byte>): (r: seq<Segment>)
    ensures WellFormed(r) && Pixels(r) == rest
    ensures forall i :: 0 <= i < |r| ==> r[i].Raw?
    decreases |rest|
  {
    if |rest| > 255 then
      var tail := RawBlocks(rest[255..]);
      var r := [Raw(rest[..255])] + tail;
      assert r[1..] == tail;
      assert rest[..255] + rest[255..] == rest;
      r
    else if rest != [] then
      var r := [Raw(rest)];
      assert r[1..] == [];
      r
    else []
  }

  /** Every pixel of a raw block comes from the bytes it stores. */
  lemma {:induction false} RawBlocksFrom(rest: seq<Byte>)
    ensures forall i, j :: 0 <= i < |RawBlocks(rest)| && 0 <= j < |RawBlocks(rest)[i].bytes| ==> RawBlocks(rest)[i].bytes[j] in rest
    decreases |rest|
  {
    var r := RawBlocks(rest);
    if |rest| > 255 {
      RawBlocksFrom(rest[255..]);
      var tail := RawBlocks(rest[255..]);
      assert r == [Raw(rest[..255])] + tail;
      forall i, j | 0 <= i < |r| && 0 <= j < |r[i].bytes|
        ensures r[i].bytes[j] in rest
      {
        if i == 0 {
          assert r[i].bytes[j] == rest[j];
        } else {
          assert r[i] == tail[i - 1];
          assert r[i].bytes[j] in rest[255..];
        }
      }
    } else if rest != [] {
      assert r == [Raw(rest)];
    }
  }

  lemma WellFormedAppend(a: seq<Segment>, b: seq<Segment>)
    requires WellFormed(a) && WellFormed(b)
    ensures WellFormed(a + b)
  {
    forall i | 0 <= i < |a + b|
      ensures WellFormedSegment((a + b)[i])
    {
      if i < |a| {
        assert (a + b)[i] == a[i];
      } else {
        assert (a + b)[i] == b[i - |a|];
      }
    }
  }

  lemma {:induction false} PixelsAppend(a: seq<Segment>, b: seq<Segment>)
    ensures Pixels(a + b) == Pixels(a) + Pixels(b)
    decreases |a|
  {
    if a == [] {
      assert a + b == b;
    } else {
      assert (a + b)[1..] == a[1..] + b;
      PixelsAppend(a[1..], b);
    }
  }

  /** All pixels of `chunk` have the type of its first pixel. */
  predicate OneType(chunk: seq<Byte>, palette: seq<Color>)
    requires |palette| == PALETTE_SIZE
  {
    forall k :: 0 <= k < |chunk| ==> TypeOf(palette, chunk[k]) == TypeOf(palette, chunk[0])
  }

  /** A raw block of one type added to the open row: when the row ends in a
      raw segment of the block's type, that segment is filled up to 255
      first, and the rest goes into new raw segments. */
  function AppendRaw(cur: seq<Segment>, chunk: seq<Byte>, palette: seq<Color>): seq<Segment>
    requires |palette| == PALETTE_SIZE && WellFormed(cur) && chunk != []
  {
    if cur != [] && Last(cur).Raw? && TypeOf(palette, chunk[0]) == TypeOf(palette, Last(cur).bytes[0]) then
      var toCopy := Min(|chunk|, 255 - |Last(cur).bytes|);
      WithLast(cur, Raw(Last(cur).bytes + chunk[..toCopy])) + RawBlocks(chunk[toCopy..])
    else
      cur + RawBlocks(chunk)
  }

  /** The row with its last segment replaced by `s`. */
  function WithLast(cur: seq<Segment>, s: Segment): seq<Segment>
    requires cur != []
  {
    cur[..|cur| - 1] + [s]
  }

  lemma WithLastFacts(cur: seq<Segment>, s: Segment)
    requires cur != []
    ensures Pixels(cur) == Pixels(cur[..|cur| - 1]) + SegmentPixels(Last(cur))
    ensures Pixels(WithLast(cur, s)) == Pixels(cur[..|cur| - 1]) + SegmentPixels(s)
    ensures WellFormed(cur) && WellFormedSegment(s) ==> WellFormed(WithLast(cur, s))
  {
    WithLastPixels(cur, s);
    if WellFormed(cur) && WellFormedSegment(s) {
      WithLastWellFormed(cur, s);
    }
  }

  lemma WithLastPixels(cur: seq<Segment>, s: Segment)
    requires cur != []
    ensures Pixels(cur) == Pixels(cur[..|cur| - 1]) + SegmentPixels(Last(cur))
    ensures Pixels(WithLast(cur, s)) == Pixels(cur[..|cur| - 1]) + SegmentPixels(s)
  {
    var front := cur[..|cur| - 1];
    SplitLast(cur);
    PixelsSnoc(front, Last(cur));
    PixelsSnoc(front, s);
  }

  lemma WithLastWellFormed(cur: seq<Segment>, s: Segment)
    requires cur != [] && WellFormed(cur) && WellFormedSegment(s)
    ensures WellFormed(WithLast(cur, s))
  {
    var front := cur[..|cur| - 1];
    var w := WithLast(cur, s);
    forall i | 0 <= i < |w|
      ensures WellFormedSegment(w[i])
    {
      if i < |front| {
        assert w[i] == cur[i];
      } else {
        assert w[i] == s;
      }
    }
  }

  /** Adding a raw block stores exactly its pixels, in well-formed segments. */
  lemma AppendRawPixels(cur: seq<Segment>, chunk: seq<Byte>, palette: seq<Color>)
    requires |palette| == PALETTE_SIZE && WellFormed(cur) && chunk != []
    ensures WellFormed(AppendRaw(cur, chunk, palette))
    ensures Pixels(AppendRaw(cur, chunk, palette)) == Pixels(cur) + chunk
  {
    if cur != [] && Last(cur).Raw? && TypeOf(palette, chunk[0]) == TypeOf(palette, Last(cur).bytes[0]) {
      assert WellFormedSegment(cur[|cur| - 1]);
      MergeRawPixels(cur, chunk, Min(|chunk|, 255 - |Last(cur).bytes|));
    } else {
      PixelsAppend(cur, RawBlocks(chunk));
      WellFormedAppend(cur, RawBlocks(chunk));
    }
  }

  lemma MergeRawPixels(cur: seq<Segment>, chunk: seq<Byte>, toCopy: nat)
    requires WellFormed(cur) && cur != [] && Last(cur).Raw?
    requires toCopy <= |chunk| && |Last(cur).bytes| + toCopy <= 255
    ensures WellFormed(WithLast(cur, Raw(Last(cur).bytes + chunk[..toCopy])) + RawBlocks(chunk[toCopy..]))
    ensures Pixels(WithLast(cur, Raw(Last(cur).bytes + chunk[..toCopy])) + RawBlocks(chunk[toCopy..])) == Pixels(cur) + chunk
  {
    var front, last, c1, c2 := cur[..|cur| - 1], Last(cur).bytes, chunk[..toCopy], chunk[toCopy..];
    assert c1 + c2 == chunk;
    var merged := Raw(last + c1);
    var w := WithLast(cur, merged);
    var blocks := RawBlocks(c2);
    assert WellFormedSegment(cur[|cur| - 1]);
    WithLastFacts(cur, merged);
    WellFormedAppend(w, blocks);
    PixelsAppend(w, blocks);
    var p := Pixels(front);
    calc {
      Pixels(w + blocks);
      Pixels(w) + c2;
      (p + (last + c1)) + c2;
      { SeqAssoc(p, last, c1, c2); }
      (p + last) + chunk;
      Pixels(cur) + chunk;
    }
  }

  lemma SeqAssoc<T>(a: seq<T>, b: seq<T>, c: seq<T>, d: seq<T>)
    ensures (a + (b + c)) + d == (a + b) + (c + d)
  {
  }

  /** Adding a block of one type keeps every raw segment of one type. */
  lemma AppendRawHomogeneous(cur: seq<Segment>, chunk: seq<Byte>, palette: seq<Color>)
    requires |palette| == PALETTE_SIZE && WellFormed(cur) && chunk != []
    requires Homogeneous(cur, palette) && OneType(chunk, palette)
    ensures Homogeneous(AppendRaw(cur, chunk, palette), palette)
  {
    if cur != [] && Last(cur).Raw? && TypeOf(palette, chunk[0]) == TypeOf(palette, Last(cur).bytes[0]) {
      var last := Last(cur).bytes;
      var toCopy := Min(|chunk|, 255 - |last|);
      assert chunk[..toCopy] + chunk[toCopy..] == chunk;
      var merged := last + chunk[..toCopy];
      assert OneType(merged, palette) by {
        assert WellFormedSegment(cur[|cur| - 1]);
        forall k | 0 <= k < |merged|
          ensures TypeOf(palette, merged[k]) == TypeOf(palette, merged[0])
        {
          assert Homogeneous(cur, palette) && cur[|cur| - 1].Raw?;
          if k >= |last| {
            assert merged[k] == chunk[k - |last|];
          }
        }
      }
      WithLastHomogeneous(cur, merged, palette);
      OneTypeSuffix(chunk, toCopy, palette);
      RawBlocksHomogeneous(chunk[toCopy..], palette);
      HomogeneousAppend(WithLast(cur, Raw(merged)), RawBlocks(chunk[toCopy..]), palette);
    } else {
      RawBlocksHomogeneous(chunk, palette);
      HomogeneousAppend(cur, RawBlocks(chunk), palette);
    }
  }

  lemma OneTypeSuffix(chunk: seq<Byte>, n: nat, palette: seq<Color>)
    requires |palette| == PALETTE_SIZE && OneType(chunk, palette) && n <= |chunk|
    ensures OneType(chunk[n..], palette)
  {
  }

  lemma HomogeneousAppend(a: seq<Segment>, b: seq<Segment>, palette: seq<Color>)
    requires |palette| == PALETTE_SIZE && Homogeneous(a, palette) && Homogeneous(b, palette)
    ensures Homogeneous(a + b, palette)
  {
    forall i, j | 0 <= i < |a + b| && (a + b)[i].Raw? && 0 <= j < |(a + b)[i].bytes|
      ensures TypeOf(palette, (a + b)[i].bytes[j]) == TypeOf(palette, (a + b)[i].bytes[0])
    {
      if i < |a| {
        assert (a + b)[i] == a[i];
      } else {
        assert (a + b)[i] == b[i - |a|];
      }
    }
  }

  lemma WithLastHomogeneous(cur: seq<Segment>, bytes: seq<Byte>, palette: seq<Color>)
    requires |palette| == PALETTE_SIZE && cur != [] && Homogeneous(cur, palette) && OneType(bytes, palette)
    ensures Homogeneous(WithLast(cur, Raw(bytes)), palette)
  {
    var w := WithLast(cur, Raw(bytes));
    forall i, j | 0 <= i < |w| && w[i].Raw? && 0 <= j < |w[i].bytes|
      ensures TypeOf(palette, w[i].bytes[j]) == TypeOf(palette, w[i].bytes[0])
    {
      if i < |cur| - 1 {
        assert w[i] == cur[i];
      }
    }
  }

  lemma RawBlocksHomogeneous(rest: seq<Byte>, palette: seq<Color>)
    requires |palette| == PALETTE_SIZE && OneType(rest, palette)
    ensures Homogeneous(RawBlocks(rest), palette)
  {
    var r := RawBlocks(rest);
    RawBlocksFrom(rest);
    forall x | x in rest
      ensures TypeOf(palette, x) == TypeOf(palette, rest[0])
    {
      var k :| 0 <= k < |rest| && rest[k] == x;
    }
    forall i, j | 0 <= i < |r| && r[i].Raw? && 0 <= j < |r[i].bytes|
      ensures TypeOf(palette, r[i].bytes[j]) == TypeOf(palette, r[i].bytes[0])
    {
      assert r[i].bytes[j] in rest && r[i].bytes[0] in rest;
    }
  }

  /** `load(size, data)` on the open row: a run of two or more equal pixels
      (other than 0xFF) becomes color runs; otherwise a block of one type
      is chosen and stored raw. */
  function AddRaw(cur: seq<Segment>, data: seq<Byte>, palette: seq<Color>): (r: seq<Segment>)
    requires |palette| == PALETTE_SIZE && WellFormed(cur)
    ensures WellFormed(r)
    decreases |data|
  {
    if data == [] then cur
    else
      var run := SameRun(data, 1);
      if data[0] != 0xFF && run > 1 then
        AddColorFacts(cur, data[0], run);
        AddRaw(AddColor(cur, data[0], run), data[run..], palette)
      else
        var n := RawRun(data, palette, 1);
        AppendRawPixels(cur, data[..n], palette);
        AddRaw(AppendRaw(cur, data[..n], palette), data[n..], palette)
  }

  /** The two steps `AddRaw` takes on pixels left: a run of equal pixels
      other than 0xFF goes through `AddColor`, anything else is a raw block. */
  lemma AddRawUnfold(cur: seq<Segment>, data: seq<Byte>, palette: seq<Color>)
    requires |palette| == PALETTE_SIZE && WellFormed(cur) && data != []
    ensures data[0] != 0xFF && SameRun(data, 1) > 1 ==>
      WellFormed(AddColor(cur, data[0], SameRun(data, 1))) &&
      AddRaw(cur, data, palette) == AddRaw(AddColor(cur, data[0], SameRun(data, 1)), data[SameRun(data, 1)..], palette)
    ensures !(data[0] != 0xFF && SameRun(data, 1) > 1) ==>
      var n := RawRun(data, palette, 1);
      1 <= n <= |data| && WellFormed(AppendRaw(cur, data[..n], palette)) &&
      AddRaw(cur, data, palette) == AddRaw(AppendRaw(cur, data[..n], palette), data[n..], palette)
  {
    if data[0] != 0xFF && SameRun(data, 1) > 1 {
      AddColorFacts(cur, data[0], SameRun(data, 1));
    } else {
      AppendRawPixels(cur, data[..RawRun(data, palette, 1)], palette);
    }
  }

  /** The segments `load(size, data)` leaves stand for exactly the pixels
      loaded, and no raw segment mixes pixel types. */
  lemma {:induction false} AddRawPixels(cur: seq<Segment>, data: seq<Byte>, palette: seq<Color>)
    requires |palette| == PALETTE_SIZE && WellFormed(cur)
    ensures Pixels(AddRaw(cur, data, palette)) == Pixels(cur) + data
    ensures Homogeneous(cur, palette) ==> Homogeneous(AddRaw(cur, data, palette), palette)
    decreases |data|
  {
    if data == [] {
      assert Pixels(cur) + data == Pixels(cur);
    } else {
      var run := SameRun(data, 1);
      if data[0] != 0xFF && run > 1 {
        var next := AddColor(cur, data[0], run);
        AddColorFacts(cur, data[0], run);
        KeepsRawsHomogeneous(cur, next, palette);
        AddRawPixels(next, data[run..], palette);
        assert data[..run] == Repeat(data[0], run);
        SplitAt(Pixels(cur), data, run);
      } else {
        var n := RawRun(data, palette, 1);
        var next := AppendRaw(cur, data[..n], palette);
        AppendRawPixels(cur, data[..n], palette);
        if Homogeneous(cur, palette) {
          AppendRawHomogeneous(cur, data[..n], palette);
        }
        AddRawPixels(next, data[n..], palette);
        SplitAt(Pixels(cur), data, n);
      }
    }
  }

  lemma SplitAt(p: seq<Byte>, data: seq<Byte>, n: nat)
    requires n <= |data|
    ensures (p + data[..n]) + data[n..] == p + data
  {
    assert data[..n] + data[n..] == data;
  }

  /** `load(size, color)` on the open row: nothing for size 0; 0xFF, the
      raw marker, is loaded as `size` raw pixels; any other color as runs. */
  function AddFill(cur: seq<Segment>, color: Byte, size: nat, palette: seq<Color>): seq<Segment>
    requires |palette| == PALETTE_SIZE && WellFormed(cur)
  {
    if size == 0 then cur
    else if color == 0xFF then AddRaw(cur, Repeat(0xFF, size), palette)
    else AddColor(cur, color, size)
  }

  /** `load(size, color)` stores exactly `size` pixels of `color` after those
      of the row, in well-formed segments, and never mixes pixel types in a
      raw segment. */
  lemma AddFillFacts(cur: seq<Segment>, color: Byte, size: nat, palette: seq<Color>)
    requires |palette| == PALETTE_SIZE && WellFormed(cur)
    ensures WellFormed(AddFill(cur, color, size, palette))
    ensures Pixels(AddFill(cur, color, size, palette)) == Pixels(cur) + Repeat(color, size)
    ensures Homogeneous(cur, palette) ==> Homogeneous(AddFill(cur, color, size, palette), palette)
  {
    if size == 0 {
      assert Repeat(color, 0) == [];
      assert Pixels(cur) + [] == Pixels(cur);
    } else if color == 0xFF {
      AddRawPixels(cur, Repeat(0xFF, size), palette);
    } else {
      AddColorFacts(cur, color, size);
      KeepsRawsHomogeneous(cur, AddColor(cur, color, size), palette);
    }
  }

  lemma FrontOf(cur: seq<Segment>)
    requires WellFormed(cur) && cur != []
    ensures WellFormed(cur[..|cur| - 1]) && WellFormedSegment(Last(cur))
    ensures cur == cur[..|cur| - 1] + [Last(cur)]
  {
    var front := cur[..|cur| - 1];
    forall i | 0 <= i < |front| ensures WellFormedSegment(front[i]) {
      assert front[i] == cur[i];
    }
    assert WellFormedSegment(cur[|cur| - 1]);
  }

  /** The bytes of a row whose last segment is replaced differ only in that
      segment's bytes, at the end. */
  lemma EncodeWithLast(cur: seq<Segment>, s: Segment)
    requires WellFormed(cur) && cur != [] && WellFormedSegment(s)
    ensures WellFormed(cur[..|cur| - 1]) && WellFormed(WithLast(cur, s))
    ensures Encode(cur) == Encode(cur[..|cur| - 1]) + SegmentBytes(Last(cur))
    ensures Encode(WithLast(cur, s)) == Encode(cur[..|cur| - 1]) + SegmentBytes(s)
  {
    FrontOf(cur);
    EncodeSnoc(cur[..|cur| - 1], Last(cur));
    EncodeSnoc(cur[..|cur| - 1], s);
  }
}
