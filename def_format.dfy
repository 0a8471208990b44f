/** The DEF sprite container: its palette, its block catalog of frame
    offsets, its frame header, and the four scanline encodings, stated as
    the sequence of calls a frame makes on a pixel sink. */
module DefFormat {
  import opened Common

  /** An RGBA palette color (the SDL color's fourth byte is its alpha). */
  datatype Color = Color(r: Byte, g: Byte, b: Byte, a: Byte)

  /** The fixed colors of palette entries 0..7: transparency, shadow
      border, shadow body and selection highlight, differing only in alpha. */
  const H3_PALETTE: seq<Color> := [
    Color(0, 0, 0, 0), Color(0, 0, 0, 192), Color(0, 0, 0, 128), Color(0, 0, 0, 128),
    Color(0, 0, 0, 128), Color(0, 0, 0, 0), Color(0, 0, 0, 128), Color(0, 0, 0, 192)]

  /** Containers of this type (buttons, buildings) have no shadow colors. */
  const TYPE_NO_SHADOWS: nat := 71

  /** The container header: type, width, height, block count (4 bytes each),
      then 256 RGB triples. */
  const PALETTE_START: nat := 16
  const PALETTE_SIZE: nat := 256
  const BLOCKS_START: nat := 16 + 3 * 256

  /** A block header is a block id, an entry count and 8 unknown bytes; each
      entry then has a 13-byte name, and after the names come the offsets. */
  const BLOCK_HEADER_SIZE: nat := 16
  const FRAME_NAME_SIZE: nat := 13

  /** The RGB triple of palette entry `i` in the file, with full alpha. */
  function FileColor(data: seq<Byte>, p0: int, i: nat): (c: Color)
    ensures c.a == 255
    ensures c.r == At(data, p0 + PALETTE_START + 3 * i) && c.g == At(data, p0 + PALETTE_START + 3 * i + 1)
    ensures c.b == At(data, p0 + PALETTE_START + 3 * i + 2)
  {
    Color(At(data, p0 + PALETTE_START + 3 * i), At(data, p0 + PALETTE_START + 3 * i + 1),
          At(data, p0 + PALETTE_START + 3 * i + 2), 255)
  }

  /** The color stored for palette entry `i` of a container whose header
      starts at `p0`: entries 0..7 are fixed (all zero for type 71), the
      others are the file's RGB triple with full alpha. */
  function PaletteEntry(data: seq<Byte>, p0: int, defType: nat, i: nat): (c: Color)
    ensures i >= 8 ==> c == FileColor(data, p0, i)
    ensures i < 8 && defType == TYPE_NO_SHADOWS ==> c == Color(0, 0, 0, 0)
    ensures i < 8 && defType != TYPE_NO_SHADOWS ==> c == H3_PALETTE[i]
  {
    if i < 8 then (if defType == TYPE_NO_SHADOWS then Color(0, 0, 0, 0) else H3_PALETTE[i])
    else FileColor(data, p0, i)
  }

  /** The whole palette of a container whose header starts at `p0`; its type
      is the header's first field. */
  function Palette(data: seq<Byte>, p0: nat): (pal: seq<Color>)
    ensures |pal| == PALETTE_SIZE
    ensures forall i :: 0 <= i < PALETTE_SIZE ==> pal[i] == PaletteEntry(data, p0, LE32(data, p0), i)
  {
    seq(PALETTE_SIZE, i requires 0 <= i < PALETTE_SIZE => PaletteEntry(data, p0, LE32(data, p0), i))
  }

  /** Entries 0..7 of the palette of a container with shadows are fully
      transparent (0, 5) or partly transparent black; every entry read from
      the file is opaque. */
  lemma PaletteAlphas(data: seq<Byte>, p0: int, defType: nat, i: nat)
    requires i < PALETTE_SIZE
    ensures i >= 8 ==> PaletteEntry(data, p0, defType, i).a == 255
    ensures i < 8 ==> PaletteEntry(data, p0, defType, i).a != 255
    ensures i < 8 ==> PaletteEntry(data, p0, defType, i).r == 0 && PaletteEntry(data, p0, defType, i).g == 0
    ensures defType != TYPE_NO_SHADOWS ==>
              (PaletteEntry(data, p0, defType, i).a == 0 <==> i == 0 || i == 5)
  {
  }

  // ---------------------------------------------------------------------
  // Block catalog
  // ---------------------------------------------------------------------

  /** `offset[group][frame]`: the file offset of each frame, by group. */
  type OffsetTable = map<nat, seq<nat>>

  /** `n` consecutive little-endian 32-bit values starting at `pos`. */
  function Offsets(data: seq<Byte>, pos: nat, n: nat): (s: seq<nat>)
    ensures |s| == n
    ensures forall j :: 0 <= j < n ==> s[j] == LE32(data, pos + 4 * j)
  {
    seq(n, j requires 0 <= j < n => LE32(data, pos + 4 * j))
  }

  /** The offset table and the read cursor while blocks are parsed. */
  datatype Catalog = Catalog(offset: OffsetTable, pos: nat)

  /** One block read at the cursor: the 16-byte header and the 13-byte
      names are skipped and the block's offsets are appended to its group.
      A block without entries leaves the table alone (its group is only
      created by the first offset appended to it). */
  function BlockStep(data: seq<Byte>, c: Catalog): (r: Catalog)
    ensures var id, n := LE32(data, c.pos), LE32(data, c.pos + 4);
            var names := c.pos + BLOCK_HEADER_SIZE + 13 * n;
            r.pos == names + 4 * n &&
            (n == 0 ==> r.offset == c.offset) &&
            (n > 0 ==> r.offset.Keys == c.offset.Keys + {id} &&
                       r.offset[id] == ListAt(c.offset, id) + Offsets(data, names, n)) &&
            (forall g :: g in c.offset && g != id ==> r.offset[g] == c.offset[g])
  {
    var id, n := LE32(data, c.pos), LE32(data, c.pos + 4);
    var names := c.pos + BLOCK_HEADER_SIZE + 13 * n;
    if n == 0 then Catalog(c.offset, names)
    else Catalog(c.offset[id := ListAt(c.offset, id) + Offsets(data, names, n)], names + 4 * n)
  }

  /** Reading one more offset appends it. */
  lemma OffsetsSnoc(data: seq<Byte>, pos: nat, n: nat)
    ensures Offsets(data, pos, n + 1) == Offsets(data, pos, n) + [LE32(data, pos + 4 * n)]
  {
  }

  /** The catalog after the first `n` blocks, starting from an empty table. */
  function Blocks(data: seq<Byte>, start: nat, n: nat): Catalog
  {
    if n == 0 then Catalog(map[], start) else BlockStep(data, Blocks(data, start, n - 1))
  }

  /** `getEntries`: each group with its number of frames. */
  function Entries(t: OffsetTable): (r: map<nat, nat>)
    ensures r.Keys == t.Keys
    ensures forall g :: g in t ==> r[g] == |t[g]|
  {
    map g | g in t :: |t[g]|
  }

  /** Reading a block adds its entry count to its group's frame count and
      leaves every other group's count alone. */
  lemma EntriesBlockStep(data: seq<Byte>, c: Catalog)
    ensures var id, n := LE32(data, c.pos), LE32(data, c.pos + 4);
            Entries(BlockStep(data, c).offset) ==
              if n == 0 then Entries(c.offset)
              else Entries(c.offset)[id := (if id in c.offset then |c.offset[id]| else 0) + n]
  {
  }

  // ---------------------------------------------------------------------
  // Frames
  // ---------------------------------------------------------------------

  /** The frame header: eight little-endian 32-bit fields; the margins are
      signed. */
  datatype SpriteDef = SpriteDef(size: nat, format: nat, fullWidth: nat, fullHeight: nat,
                                 width: nat, height: nat, leftMargin: int, topMargin: int)

  const SPRITE_DEF_SIZE: nat := 32

  function ReadSpriteDef(data: seq<Byte>, off: nat): (sd: SpriteDef)
    ensures sd.format == LE32(data, off + 4) && sd.width == LE32(data, off + 16) && sd.height == LE32(data, off + 20)
    ensures sd.fullWidth == LE32(data, off + 8) && sd.fullHeight == LE32(data, off + 12)
    ensures sd.leftMargin == ToInt32(LE32(data, off + 24)) && sd.topMargin == ToInt32(LE32(data, off + 28))
  {
    SpriteDef(LE32(data, off), LE32(data, off + 4), LE32(data, off + 8), LE32(data, off + 12),
              LE32(data, off + 16), LE32(data, off + 20),
              ToInt32(LE32(data, off + 24)), ToInt32(LE32(data, off + 28)))
  }

  /** A call on a pixel sink: `init` with sprite size, margins, full size and
      palette; `load(size, bytes)`; `load(size, color)`; `endLine`. */
  datatype SinkEvent =
    | Init(width: nat, height: nat, leftMargin: int, topMargin: int, fullWidth: nat, fullHeight: nat, palette: seq<Color>)
    | LoadRaw(bytes: seq<Byte>)
    | LoadColor(size: nat, color: Byte)
    | EndLine

  /** The pixels a load call stands for. */
  function Pixels(e: SinkEvent): seq<Byte>
  {
    match e
    case LoadRaw(b) => b
    case LoadColor(n, c) => Repeat(c, n)
    case _ => []
  }

  /** The number of pixels a sequence of load calls stands for. */
  function Width(events: seq<SinkEvent>): nat
  {
    if events == [] then 0 else |Pixels(events[0])| + Width(events[1..])
  }

  /** How a segment header is laid out: format 1 uses a type byte (0xFF for
      raw) and a length byte (length - 1); formats 2 and 3 pack a 3-bit code
      (7 for raw) and a 5-bit length - 1 into one byte. `rawAsColor` is the
      format 2 defect: raw data is passed as the color overload with the
      first data byte. */
  datatype Scheme = Opcode8 | Packed(rawAsColor: bool)

  /** A format 1 segment at `cur`: a type byte (0xFF for raw data, else
      the color of a run) and a byte holding the length - 1. Yields the sink
      call, the pixel length and the cursor after the segment. */
  function OpcodeSegment(data: seq<Byte>, cur: nat): (SinkEvent, nat, nat)
  {
    var t, len := At(data, cur), At(data, cur + 1) + 1;
    if t == 0xFF then (LoadRaw(Slice(data, cur + 2, len)), len, cur + 2 + len)
    else (LoadColor(len, t), len, cur + 2)
  }

  /** A format 2 or 3 segment at `cur`: one byte with a 3-bit code (7 for
      raw data, else the color of a run) and the 5-bit length - 1. */
  function PackedSegment(data: seq<Byte>, cur: nat, rawAsColor: bool): (SinkEvent, nat, nat)
  {
    var s := At(data, cur);
    var code, len := s / 32, s % 32 + 1;
    if code == 7 then
      (if rawAsColor then LoadColor(len, At(data, cur + 1)) else LoadRaw(Slice(data, cur + 1, len)), len, cur + 1 + len)
    else (LoadColor(len, code), len, cur + 1)
  }

  /** Decodes the segment at `cur` by the scheme. */
  function Segment(data: seq<Byte>, cur: nat, scheme: Scheme): (SinkEvent, nat, nat)
  {
    match scheme
    case Opcode8 => OpcodeSegment(data, cur)
    case Packed(rawAsColor) => PackedSegment(data, cur, rawAsColor)
  }

  /** A segment is a load of 1 to 256 pixels (format 1) or 1 to 32 pixels
      (formats 2 and 3), and the cursor moves past it. */
  lemma OpcodeSegmentLoads(data: seq<Byte>, cur: nat)
    ensures var r := OpcodeSegment(data, cur);
            1 <= r.1 <= 256 && |Pixels(r.0)| == r.1 && (r.0.LoadRaw? || r.0.LoadColor?) && r.2 > cur
  {
  }

  lemma PackedSegmentLoads(data: seq<Byte>, cur: nat, rawAsColor: bool)
    ensures var r := PackedSegment(data, cur, rawAsColor);
            1 <= r.1 <= 32 && |Pixels(r.0)| == r.1 && (r.0.LoadRaw? || r.0.LoadColor?) && r.2 > cur
  {
  }

  /** A segment decoder: for a cursor, the sink call of the segment there,
      its pixel length and the cursor after it. */
  type Decoder = nat -> (SinkEvent, nat, nat)

  /** The decoder of a scheme over the file's bytes. */
  function DecoderOf(data: seq<Byte>, scheme: Scheme): Decoder
  {
    c => Segment(data, c, scheme)
  }

  /** The longest segment of a scheme. */
  function MaxSegment(scheme: Scheme): nat
  {
    if scheme.Opcode8? then 256 else 32
  }

  /** Every segment a decoder yields is a load of 1 to `max` pixels. */
  ghost predicate Advances(dec: Decoder, max: nat) {
    forall c :: 1 <= dec(c).1 <= max && |Pixels(dec(c).0)| == dec(c).1 && (dec(c).0.LoadRaw? || dec(c).0.LoadColor?)
  }

  lemma DecoderAdvances(data: seq<Byte>, scheme: Scheme)
    ensures Advances(DecoderOf(data, scheme), MaxSegment(scheme))
  {
    forall c: nat ensures var r := DecoderOf(data, scheme)(c);
      1 <= r.1 <= MaxSegment(scheme) && |Pixels(r.0)| == r.1 && (r.0.LoadRaw? || r.0.LoadColor?)
    {
      match scheme
      case Opcode8 => OpcodeSegmentLoads(data, c);
      case Packed(rawAsColor) => PackedSegmentLoads(data, c, rawAsColor);
    }
  }

  /** The segments of one row from `cur`, `acc` pixels already decoded:
      segments are decoded until the row holds at least `width` pixels.
      Yields the sink calls and the cursor after the row. */
  function Row(dec: Decoder, cur: nat, width: nat, acc: nat): (r: (seq<SinkEvent>, nat))
    requires forall c :: dec(c).1 >= 1
    decreases width - acc
  {
    if acc >= width then ([], cur)
    else
      var seg := dec(cur);
      var rest := Row(dec, seg.2, width, acc + seg.1);
      ([seg.0] + rest.0, rest.1)
  }

  /** A whole row of a scheme from `start`: its calls and the cursor after it. */
  function SchemeRow(data: seq<Byte>, scheme: Scheme, start: nat, width: nat): (seq<SinkEvent>, nat)
  {
    DecoderAdvances(data, scheme);
    Row(DecoderOf(data, scheme), start, width, 0)
  }

  /** How rows of a compressed format are segmented; `fix` selects the
      corrected format 2. */
  function RowScheme(format: nat, fix: bool): Scheme
  {
    if format == 1 then Opcode8 else if format == 2 then Packed(!fix) else Packed(false)
  }

  /** Where row `i` of a compressed frame starts: format 1 reads the row's
      32-bit offset from a table at the start of the pixel data, format 3 a
      16-bit offset from a table with one entry per 32 pixels of width, and
      format 2 continues where the previous row ended (`cur`). Offsets are
      relative to the start of the pixel data, `base`. */
  function RowStart(data: seq<Byte>, base: nat, sd: SpriteDef, i: nat, cur: nat): nat
  {
    if sd.format == 1 then base + LE32(data, base + 4 * i)
    else if sd.format == 2 then cur
    else base + LE16(data, base + i * 2 * (sd.width / 32))
  }

  /** The calls of row `i` of a frame and the cursor after it. `fix` selects
      the corrected formats 0 and 2 (raw data passed as raw data); `cur` is
      where the previous row ended. Format 0 rows are `width` bytes each. */
  function RowAt(data: seq<Byte>, base: nat, sd: SpriteDef, fix: bool, i: nat, cur: nat): (r: (seq<SinkEvent>, nat))
    requires sd.format <= 3
  {
    if sd.format == 0 then
      (if fix then [LoadRaw(Slice(data, cur, sd.width))] else [LoadColor(sd.width, At(data, cur))], cur + sd.width)
    else SchemeRow(data, RowScheme(sd.format, fix), RowStart(data, base, sd, i, cur), sd.width)
  }

  /** A row decoder: for a row index and the cursor where the previous row
      ended, the row's calls and the cursor after it. */
  type RowDecoder = (nat, nat) -> (seq<SinkEvent>, nat)

  /** The row decoder of a frame in a supported format. */
  function RowDecoderOf(data: seq<Byte>, base: nat, sd: SpriteDef, fix: bool): RowDecoder
    requires sd.format <= 3
  {
    (i, cur) => RowAt(data, base, sd, fix, i, cur)
  }

  /** The calls for rows `i` .. height - 1, each row closed by `endLine`. */
  function RowsFrom(rows: RowDecoder, height: nat, i: nat, cur: nat): seq<SinkEvent>
    decreases height - i
  {
    if i >= height then []
    else
      var r := rows(i, cur);
      r.0 + [EndLine] + RowsFrom(rows, height, i + 1, r.1)
  }

  /** Where the first row's data is looked for: format 2 reads one 16-bit
      offset at the start of the pixel data; the others start there. */
  function FirstCursor(data: seq<Byte>, base: nat, format: nat): nat
  {
    if format == 2 then base + LE16(data, base) else base
  }

  /** `loadFrame` for the frame at `off`: `init`, then the rows of a
      supported format; an unsupported format makes no further call. */
  function FrameCalls(data: seq<Byte>, off: nat, palette: seq<Color>, fix: bool): seq<SinkEvent>
  {
    var sd := ReadSpriteDef(data, off);
    var base := off + SPRITE_DEF_SIZE;
    [Init(sd.width, sd.height, sd.leftMargin, sd.topMargin, sd.fullWidth, sd.fullHeight, palette)] +
    (if sd.format <= 3 then RowsFrom(RowDecoderOf(data, base, sd, fix), sd.height, 0, FirstCursor(data, base, sd.format)) else [])
  }

  /** `loadFrame` as written: formats 0 and 2 pass one data byte as a color. */
  function FrameEventsAsWritten(data: seq<Byte>, off: nat, palette: seq<Color>): (events: seq<SinkEvent>)
    ensures events != [] && events[0].Init?
  {
    FrameCalls(data, off, palette, false)
  }

  /** `loadFrame` with raw data passed as raw data in every format. */
  function FrameEvents(data: seq<Byte>, off: nat, palette: seq<Color>): (events: seq<SinkEvent>)
    ensures events != [] && events[0].Init?
  {
    FrameCalls(data, off, palette, true)
  }

  // ---------------------------------------------------------------------
  // Properties of the decoder
  // ---------------------------------------------------------------------

  /** No call in the sequence is `init`. */
  predicate NoInit(events: seq<SinkEvent>) {
    forall k :: 0 <= k < |events| ==> !events[k].Init?
  }

  /** The number of `endLine` calls. */
  function EndLines(events: seq<SinkEvent>): nat
  {
    if events == [] then 0 else (if events[0].EndLine? then 1 else 0) + EndLines(events[1..])
  }

  /** Every call is a load. */
  predicate AllLoads(events: seq<SinkEvent>) {
    forall k :: 0 <= k < |events| ==> events[k].LoadRaw? || events[k].LoadColor?
  }

  lemma {:induction false} EndLinesAppend(a: seq<SinkEvent>, b: seq<SinkEvent>)
    ensures EndLines(a + b) == EndLines(a) + EndLines(b)
    decreases |a|
  {
    if a == [] {
      assert a + b == b;
    } else {
      assert (a + b)[1..] == a[1..] + b;
      EndLinesAppend(a[1..], b);
    }
  }

  lemma {:induction false} EndLinesOfLoads(a: seq<SinkEvent>)
    requires AllLoads(a)
    ensures EndLines(a) == 0
    decreases |a|
  {
    if a != [] {
      EndLinesOfLoads(a[1..]);
    }
  }

  /** A row is decoded segment by segment until it covers the width: it makes
      only load calls, at least one when pixels were missing, each of 1 to
      `max` pixels; together they reach the width, and without the last one
      they stay short of it, so decoding stops at the first segment that
      reaches it. */
  lemma {:induction false} RowStopsAtWidth(dec: Decoder, max: nat, cur: nat, width: nat, acc: nat)
    requires Advances(dec, max)
    ensures var ev := Row(dec, cur, width, acc).0;
            AllLoads(ev) &&
            (forall k :: 0 <= k < |ev| ==> 1 <= |Pixels(ev[k])| <= max) &&
            (acc >= width <==> ev == []) &&
            (acc < width ==> acc + Width(ev) >= width && acc + Width(ev) - |Pixels(ev[|ev| - 1])| < width)
    decreases width - acc
  {
    if acc < width {
      var seg := dec(cur);
      RowStopsAtWidth(dec, max, seg.2, width, acc + seg.1);
      var rest := Row(dec, seg.2, width, acc + seg.1).0;
      assert Row(dec, cur, width, acc).0 == [seg.0] + rest;
      LoadBeforeRow(seg.0, rest, max, acc, width);
    }
  }

  /** One load of 1 to `max` pixels in front of the rest of a row that
      stops at the width: the row still stops at the width. */
  lemma LoadBeforeRow(e: SinkEvent, rest: seq<SinkEvent>, max: nat, acc: nat, width: nat)
    requires (e.LoadRaw? || e.LoadColor?) && 1 <= |Pixels(e)| <= max && acc < width
    requires AllLoads(rest) && forall k :: 0 <= k < |rest| ==> 1 <= |Pixels(rest[k])| <= max
    requires acc + |Pixels(e)| >= width <==> rest == []
    requires acc + |Pixels(e)| < width ==>
               acc + |Pixels(e)| + Width(rest) >= width && acc + |Pixels(e)| + Width(rest) - |Pixels(rest[|rest| - 1])| < width
    ensures var ev := [e] + rest;
            AllLoads(ev) && (forall k :: 0 <= k < |ev| ==> 1 <= |Pixels(ev[k])| <= max) &&
            acc + Width(ev) >= width && acc + Width(ev) - |Pixels(ev[|ev| - 1])| < width
  {
    var ev := [e] + rest;
    assert ev[0] == e && ev[1..] == rest;
    assert Width(ev) == |Pixels(e)| + Width(rest);
    forall k | 0 <= k < |ev|
      ensures (ev[k].LoadRaw? || ev[k].LoadColor?) && 1 <= |Pixels(ev[k])| <= max
    {
      if k > 0 {
        assert ev[k] == rest[k - 1];
      }
    }
    if rest == [] {
      assert ev[|ev| - 1] == e;
    } else {
      assert ev[|ev| - 1] == rest[|rest| - 1];
    }
  }

  /** A row of a compressed frame: loads of 1 to the scheme's longest
      segment each, reaching the width and stopping there. */
  lemma CompressedRow(data: seq<Byte>, base: nat, sd: SpriteDef, fix: bool, i: nat, cur: nat)
    requires 1 <= sd.format <= 3
    ensures var ev, max := RowAt(data, base, sd, fix, i, cur).0, MaxSegment(RowScheme(sd.format, fix));
            AllLoads(ev) &&
            (forall k :: 0 <= k < |ev| ==> 1 <= |Pixels(ev[k])| <= max) &&
            (sd.width == 0 <==> ev == []) &&
            (sd.width > 0 ==> Width(ev) >= sd.width && Width(ev) - |Pixels(ev[|ev| - 1])| < sd.width)
  {
    var scheme := RowScheme(sd.format, fix);
    DecoderAdvances(data, scheme);
    RowStopsAtWidth(DecoderOf(data, scheme), MaxSegment(scheme), RowStart(data, base, sd, i, cur), sd.width, 0);
  }

  /** Every row of a frame in a supported format is made of loads only. */
  lemma RowsAreLoads(data: seq<Byte>, base: nat, sd: SpriteDef, fix: bool)
    requires sd.format <= 3
    ensures forall i: nat, cur: nat :: AllLoads(RowDecoderOf(data, base, sd, fix)(i, cur).0)
  {
    forall i: nat, cur: nat ensures AllLoads(RowDecoderOf(data, base, sd, fix)(i, cur).0) {
      if sd.format > 0 {
        CompressedRow(data, base, sd, fix, i, cur);
      }
    }
  }

  /** Rows made of loads close with exactly one `endLine` each and contain
      no `init`. */
  lemma {:induction false} RowsFromShape(rows: RowDecoder, height: nat, i: nat, cur: nat)
    requires forall j: nat, c: nat :: AllLoads(rows(j, c).0)
    ensures EndLines(RowsFrom(rows, height, i, cur)) == if i >= height then 0 else height - i
    ensures NoInit(RowsFrom(rows, height, i, cur))
    decreases height - i
  {
    if i < height {
      var r := rows(i, cur);
      RowsFromShape(rows, height, i + 1, r.1);
      var rest := RowsFrom(rows, height, i + 1, r.1);
      EndLinesOfLoads(r.0);
      EndLinesAppend(r.0, [EndLine]);
      EndLinesAppend(r.0 + [EndLine], rest);
      var all := r.0 + [EndLine] + rest;
      forall k | 0 <= k < |all| ensures !all[k].Init? {
        if k > |r.0| {
          assert all[k] == rest[k - |r.0| - 1];
        }
      }
    }
  }

  /** `loadFrame` calls `init` exactly once, first, with the frame header's
      sprite size, margins and full size and the container's palette; a
      supported format then closes exactly `height` rows, and an unsupported
      one makes no other call. */
  lemma FrameShape(data: seq<Byte>, off: nat, palette: seq<Color>)
    ensures var events, sd := FrameEvents(data, off, palette), ReadSpriteDef(data, off);
            events[0] == Init(sd.width, sd.height, sd.leftMargin, sd.topMargin, sd.fullWidth, sd.fullHeight, palette) &&
            NoInit(events[1..]) &&
            (sd.format <= 3 ==> EndLines(events[1..]) == sd.height) &&
            (sd.format > 3 ==> events == [events[0]])
  {
    var events, sd := FrameEvents(data, off, palette), ReadSpriteDef(data, off);
    var base := off + SPRITE_DEF_SIZE;
    if sd.format <= 3 {
      var rows := RowDecoderOf(data, base, sd, true);
      RowsAreLoads(data, base, sd, true);
      RowsFromShape(rows, sd.height, 0, FirstCursor(data, base, sd.format));
      assert events[1..] == RowsFrom(rows, sd.height, 0, FirstCursor(data, base, sd.format));
    }
  }

  // ---------------------------------------------------------------------
  // Decoded rows
  // ---------------------------------------------------------------------

  /** The pixel rows a call sequence produces: the pixels loaded since the
      previous `endLine`, for every `endLine`; `pending` holds the pixels of
      the row in progress. */
  function RowsOf(events: seq<SinkEvent>, pending: seq<Byte>): seq<seq<Byte>>
  {
    if events == [] then []
    else if events[0].EndLine? then [pending] + RowsOf(events[1..], [])
    else RowsOf(events[1..], pending + Pixels(events[0]))
  }

  /** The pixels of a sequence of loads, concatenated. */
  function Concat(events: seq<SinkEvent>): (p: seq<Byte>)
    ensures |p| == Width(events)
  {
    if events == [] then [] else Pixels(events[0]) + Concat(events[1..])
  }

  /** A row's loads followed by its `endLine` make one row holding their
      pixels. */
  lemma {:induction false} RowsOfRow(a: seq<SinkEvent>, rest: seq<SinkEvent>, pending: seq<Byte>)
    requires AllLoads(a)
    ensures RowsOf(a + [EndLine] + rest, pending) == [pending + Concat(a)] + RowsOf(rest, [])
    decreases |a|
  {
    var all := a + [EndLine] + rest;
    if a == [] {
      assert all == [EndLine] + rest;
      assert all[1..] == rest;
      assert pending + Concat(a) == pending;
    } else {
      var tail := a[1..];
      assert all[1..] == tail + [EndLine] + rest;
      RowsOfRow(tail, rest, pending + Pixels(a[0]));
      assert pending + Pixels(a[0]) + Concat(tail) == pending + Concat(a);
    }
  }

  /** Rows made of loads decode to one pixel row each: the pixels of the
      first row's loads, then the rows after it. */
  lemma RowsFromRows(rows: RowDecoder, height: nat, i: nat, cur: nat)
    requires i < height && AllLoads(rows(i, cur).0)
    ensures var r := rows(i, cur);
            RowsOf(RowsFrom(rows, height, i, cur), []) ==
              [Concat(r.0)] + RowsOf(RowsFrom(rows, height, i + 1, r.1), [])
  {
    var r := rows(i, cur);
    RowsOfRow(r.0, RowsFrom(rows, height, i + 1, r.1), []);
    assert [] + Concat(r.0) == Concat(r.0);
  }

  /** Row `k - 1` counted from the next row is row `k`. */
  lemma NextRowStart(cur: nat, width: nat, k: nat)
    requires k > 0
    ensures cur + width + (k - 1) * width == cur + k * width
  {
    var m := k - 1;
    assert k * width == (m + 1) * width == m * width + width;
  }

  /** When every row's pixel count lies in [lo, hi), so does every decoded
      row's length. */
  lemma {:induction false} RowsOfBounded(lo: nat, hi: nat, rows: RowDecoder, height: nat, i: nat, cur: nat)
    requires i <= height
    requires forall j: nat, c: nat :: AllLoads(rows(j, c).0) && lo <= Width(rows(j, c).0) < hi
    ensures var out := RowsOf(RowsFrom(rows, height, i, cur), []);
            |out| == height - i &&
            forall k :: 0 <= k < |out| ==> lo <= |out[k]| < hi
    decreases height - i
  {
    if i < height {
      var r := rows(i, cur);
      RowsFromRows(rows, height, i, cur);
      RowsOfBounded(lo, hi, rows, height, i + 1, r.1);
      var out := RowsOf(RowsFrom(rows, height, i, cur), []);
      var restOut := RowsOf(RowsFrom(rows, height, i + 1, r.1), []);
      forall k | 0 < k < |out| ensures lo <= |out[k]| < hi {
        assert out[k] == restOut[k - 1];
      }
    }
  }

  /** A corrected format 0 row is one raw load of the `width` bytes at the
      cursor, and the next row starts right after them. */
  lemma Format0Row(data: seq<Byte>, base: nat, sd: SpriteDef, i: nat, c: nat)
    requires sd.format == 0
    ensures RowDecoderOf(data, base, sd, true)(i, c) == ([LoadRaw(Slice(data, c, sd.width))], c + sd.width)
    ensures Concat(RowDecoderOf(data, base, sd, true)(i, c).0) == Slice(data, c, sd.width)
  {
    var ev := [LoadRaw(Slice(data, c, sd.width))];
    assert ev[1..] == [];
  }

  /** Row k of `out` is the `width` bytes of `data` at `cur + k * width`. */
  predicate SlicesFrom(out: seq<seq<Byte>>, data: seq<Byte>, cur: nat, width: nat) {
    forall k :: 0 <= k < |out| ==> out[k] == Slice(data, cur + k * width, width)
  }

  /** Each row consumes `width` bytes of input and its pixels are those
      bytes. */
  ghost predicate SliceRows(rows: RowDecoder, data: seq<Byte>, width: nat) {
    forall j: nat, c: nat :: AllLoads(rows(j, c).0) && rows(j, c).1 == c + width &&
                             Concat(rows(j, c).0) == Slice(data, c, width)
  }

  /** When every row consumes `width` bytes of input and its pixels are
      those bytes, row k from `cur` on is the `width` bytes at
      `cur + k * width`. */
  lemma {:induction false} RowsOfSlices(data: seq<Byte>, width: nat, rows: RowDecoder, height: nat, i: nat, cur: nat)
    requires i <= height && SliceRows(rows, data, width)
    ensures |RowsOf(RowsFrom(rows, height, i, cur), [])| == height - i
    ensures SlicesFrom(RowsOf(RowsFrom(rows, height, i, cur), []), data, cur, width)
    decreases height - i
  {
    if i < height {
      RowsOfSlices(data, width, rows, height, i + 1, rows(i, cur).1);
      RowsOfSlicesStep(data, width, rows, height, i, cur);
    } else {
      assert RowsFrom(rows, height, i, cur) == [];
    }
  }

  lemma RowsOfSlicesStep(data: seq<Byte>, width: nat, rows: RowDecoder, height: nat, i: nat, cur: nat)
    requires i < height && SliceRows(rows, data, width)
    requires |RowsOf(RowsFrom(rows, height, i + 1, rows(i, cur).1), [])| == height - (i + 1)
    requires SlicesFrom(RowsOf(RowsFrom(rows, height, i + 1, rows(i, cur).1), []), data, rows(i, cur).1, width)
    ensures |RowsOf(RowsFrom(rows, height, i, cur), [])| == height - i
    ensures SlicesFrom(RowsOf(RowsFrom(rows, height, i, cur), []), data, cur, width)
  {
    var r := rows(i, cur);
    assert AllLoads(r.0) && r.1 == cur + width && Concat(r.0) == Slice(data, cur, width);
    RowsFromRows(rows, height, i, cur);
    var restOut := RowsOf(RowsFrom(rows, height, i + 1, r.1), []);
    ConsSlices(data, width, cur, r.1, restOut);
  }

  /** The slice at `cur` followed by the slices from `cur + width` on are
      the slices from `cur` on. */
  lemma ConsSlices(data: seq<Byte>, width: nat, cur: nat, next: nat, restOut: seq<seq<Byte>>)
    requires next == cur + width && SlicesFrom(restOut, data, next, width)
    ensures SlicesFrom([Slice(data, cur, width)] + restOut, data, cur, width)
  {
    var out := [Slice(data, cur, width)] + restOut;
    forall k | 0 <= k < |out| ensures out[k] == Slice(data, cur + k * width, width) {
      if k == 0 {
        assert cur + 0 * width == cur;
      } else {
        var m := k - 1;
        assert out[k] == restOut[m];
        assert restOut[m] == Slice(data, next + m * width, width);
        NextRowStart(cur, width, k);
      }
    }
  }

  /** The rows of a corrected format 0 frame from `cur` are the successive
      `width`-byte slices of the data. */
  lemma Format0Rows(data: seq<Byte>, base: nat, sd: SpriteDef, cur: nat)
    requires sd.format == 0
    ensures var out := RowsOf(RowsFrom(RowDecoderOf(data, base, sd, true), sd.height, 0, cur), []);
            |out| == sd.height &&
            forall k :: 0 <= k < |out| ==> out[k] == Slice(data, cur + k * sd.width, sd.width)
  {
    Format0RowsAreSlices(data, base, sd);
    RowsOfSlices(data, sd.width, RowDecoderOf(data, base, sd, true), sd.height, 0, cur);
  }

  /** Every corrected format 0 row is a load of the `width` bytes at its
      cursor, and the next row starts right after them. */
  lemma Format0RowsAreSlices(data: seq<Byte>, base: nat, sd: SpriteDef)
    requires sd.format == 0
    ensures SliceRows(RowDecoderOf(data, base, sd, true), data, sd.width)
  {
    var dec := RowDecoderOf(data, base, sd, true);
    forall j: nat, c: nat
      ensures AllLoads(dec(j, c).0) && dec(j, c).1 == c + sd.width && Concat(dec(j, c).0) == Slice(data, c, sd.width)
    {
      Format0Row(data, base, sd, j, c);
    }
  }

  /** Every corrected compressed row covers the width and overshoots it by
      less than one segment. */
  lemma CompressedRowWidths(data: seq<Byte>, base: nat, sd: SpriteDef)
    requires 1 <= sd.format <= 3
    ensures var dec, max := RowDecoderOf(data, base, sd, true), MaxSegment(RowScheme(sd.format, true));
            forall j: nat, c: nat :: AllLoads(dec(j, c).0) && sd.width <= Width(dec(j, c).0) < sd.width + max
  {
    var dec, max := RowDecoderOf(data, base, sd, true), MaxSegment(RowScheme(sd.format, true));
    forall j: nat, c: nat ensures AllLoads(dec(j, c).0) && sd.width <= Width(dec(j, c).0) < sd.width + max {
      CompressedRow(data, base, sd, true, j, c);
    }
  }

  /** The rows of a corrected compressed frame each cover the width and
      overshoot it by less than one segment. */
  lemma CompressedRows(data: seq<Byte>, base: nat, sd: SpriteDef, cur: nat)
    requires 1 <= sd.format <= 3
    ensures var out := RowsOf(RowsFrom(RowDecoderOf(data, base, sd, true), sd.height, 0, cur), []);
            var max := MaxSegment(RowScheme(sd.format, true));
            |out| == sd.height &&
            forall k :: 0 <= k < |out| ==> sd.width <= |out[k]| < sd.width + max
  {
    CompressedRowWidths(data, base, sd);
    RowsOfBounded(sd.width, sd.width + MaxSegment(RowScheme(sd.format, true)), RowDecoderOf(data, base, sd, true), sd.height, 0, cur);
  }

  /** After `init`, a frame in a supported format makes the calls of its
      rows, from the first row's cursor. */
  lemma FrameBody(data: seq<Byte>, off: nat, palette: seq<Color>, fix: bool)
    requires ReadSpriteDef(data, off).format <= 3
    ensures var sd, base := ReadSpriteDef(data, off), off + SPRITE_DEF_SIZE;
            FrameCalls(data, off, palette, fix)[1..] ==
              RowsFrom(RowDecoderOf(data, base, sd, fix), sd.height, 0, FirstCursor(data, base, sd.format))
  {
  }

  /** The decoded rows of a frame in a supported format: `height` rows; in
      format 0 each is the `width` bytes of the pixel data at its position;
      in formats 1 to 3 each covers the width and overshoots it by less than
      one segment (256 pixels in format 1, 32 in formats 2 and 3). */
  lemma FrameRows(data: seq<Byte>, off: nat, palette: seq<Color>)
    ensures var events, sd := FrameEvents(data, off, palette), ReadSpriteDef(data, off);
            var rows, base := RowsOf(events[1..], []), off + SPRITE_DEF_SIZE;
            (sd.format <= 3 ==> |rows| == sd.height) &&
            (sd.format == 0 ==> forall k :: 0 <= k < |rows| ==> rows[k] == Slice(data, base + k * sd.width, sd.width)) &&
            (1 <= sd.format <= 3 ==> forall k :: 0 <= k < |rows| ==>
               sd.width <= |rows[k]| < sd.width + (if sd.format == 1 then 256 else 32))
  {
    var sd := ReadSpriteDef(data, off);
    var base := off + SPRITE_DEF_SIZE;
    if sd.format <= 3 {
      FrameBody(data, off, palette, true);
      if sd.format == 0 {
        Format0Rows(data, base, sd, base);
      } else {
        CompressedRows(data, base, sd, FirstCursor(data, base, sd.format));
      }
    }
  }

  // ---------------------------------------------------------------------
  // The format 0 and format 2 defects
  // ---------------------------------------------------------------------

  /** A one-row frame makes that row's calls and one `endLine`. */
  lemma SingleRow(rows: RowDecoder, cur: nat)
    ensures RowsFrom(rows, 1, 0, cur) == rows(0, cur).0 + [EndLine]
  {
    assert RowsFrom(rows, 1, 1, rows(0, cur).1) == [];
  }

  /** A 2 x 1 uncompressed frame with pixels 5 and 6. */
  const FORMAT0_SAMPLE: seq<Byte> := [
    0, 0, 0, 0,  0, 0, 0, 0,  2, 0, 0, 0,  1, 0, 0, 0,
    2, 0, 0, 0,  1, 0, 0, 0,  0, 0, 0, 0,  0, 0, 0, 0,  5, 6]

  /** A 2 x 1 format 2 frame: the row offset 2, then one raw segment of two
      pixels (code 7, length 2), 5 and 6. */
  const FORMAT2_SAMPLE: seq<Byte> := [
    0, 0, 0, 0,  2, 0, 0, 0,  2, 0, 0, 0,  1, 0, 0, 0,
    2, 0, 0, 0,  1, 0, 0, 0,  0, 0, 0, 0,  0, 0, 0, 0,  2, 0, 225, 5, 6]

  /** A 2 x 1 sprite of the given format at the start of `d`. */
  predicate IsSampleHeader(d: seq<Byte>, format: nat) {
    LE32(d, 4) == format && LE32(d, 16) == 2 && LE32(d, 20) == 1
  }

  /** The samples' headers: 2 x 1 sprites in formats 0 and 2. */
  lemma Sample0Header()
    ensures IsSampleHeader(FORMAT0_SAMPLE, 0)
    ensures |FORMAT0_SAMPLE| == 34 && FORMAT0_SAMPLE[32] == 5 && FORMAT0_SAMPLE[33] == 6
  {
  }

  lemma Sample2Header()
    ensures IsSampleHeader(FORMAT2_SAMPLE, 2)
    ensures |FORMAT2_SAMPLE| == 37 && FORMAT2_SAMPLE[32] == 2 && FORMAT2_SAMPLE[33] == 0
    ensures FORMAT2_SAMPLE[34] == 225 && FORMAT2_SAMPLE[35] == 5 && FORMAT2_SAMPLE[36] == 6
  {
  }

  /** The rows of the format 0 sample shape, as written and corrected. */
  lemma Format0Sample(d: seq<Byte>, p: Byte, q: Byte, fix: bool)
    requires IsSampleHeader(d, 0)
    requires |d| == 34 && d[32] == p && d[33] == q
    ensures RowsOf(FrameCalls(d, 0, [], fix)[1..], []) == if fix then [[p, q]] else [[p, p]]
  {
    var sd := ReadSpriteDef(d, 0);
    assert Slice(d, 32, 2) == [p, q];
    FrameBody(d, 0, [], fix);
    SingleRow(RowDecoderOf(d, 32, sd, fix), 32);
    if fix {
      RowOfOne(LoadRaw([p, q]));
    } else {
      RowOfOne(LoadColor(2, p));
      assert Repeat(p, 2) == [p, p];
    }
  }

  /** Counterexample for format 0 as written: a 2 x 1 uncompressed frame
      whose pixels are `p`, `q` (FORMAT0_SAMPLE, with 5 and 6) decodes as two
      pixels of color `p`; corrected, as `p`, `q`. */
  lemma Format0RawAsColorAsWritten(d: seq<Byte>, p: Byte, q: Byte)
    requires IsSampleHeader(d, 0)
    requires |d| == 34 && d[32] == p && d[33] == q
    ensures RowsOf(FrameEventsAsWritten(d, 0, [])[1..], []) == [[p, p]]
    ensures RowsOf(FrameEvents(d, 0, [])[1..], []) == [[p, q]]
  {
    Format0Sample(d, p, q, false);
    Format0Sample(d, p, q, true);
  }

  /** The rows of the format 2 sample shape, as written and corrected. */
  lemma Format2Sample(d: seq<Byte>, p: Byte, q: Byte, fix: bool)
    requires IsSampleHeader(d, 2)
    requires |d| == 37 && d[32] == 2 && d[33] == 0 && d[34] == 225 && d[35] == p && d[36] == q
    ensures RowsOf(FrameCalls(d, 0, [], fix)[1..], []) == if fix then [[p, q]] else [[p, p]]
  {
    var sd := ReadSpriteDef(d, 0);
    assert FirstCursor(d, 32, 2) == 34;
    assert Slice(d, 35, 2) == [p, q];
    FrameBody(d, 0, [], fix);
    Format2Row(d, sd, p, fix);
    SingleRow(RowDecoderOf(d, 32, sd, fix), 34);
    if fix {
      RowOfOne(LoadRaw([p, q]));
    } else {
      RowOfOne(LoadColor(2, p));
      assert Repeat(p, 2) == [p, p];
    }
  }

  /** Counterexample for format 2 as written: a 2 x 1 format 2 frame whose
      row is one raw segment `p`, `q` (FORMAT2_SAMPLE, with 5 and 6) decodes
      as two pixels of color `p`; corrected, as `p`, `q`. */
  lemma Format2RawAsColorAsWritten(d: seq<Byte>, p: Byte, q: Byte)
    requires IsSampleHeader(d, 2)
    requires |d| == 37 && d[32] == 2 && d[33] == 0 && d[34] == 225 && d[35] == p && d[36] == q
    ensures RowsOf(FrameEventsAsWritten(d, 0, [])[1..], []) == [[p, p]]
    ensures RowsOf(FrameEvents(d, 0, [])[1..], []) == [[p, q]]
  {
    Format2Sample(d, p, q, false);
    Format2Sample(d, p, q, true);
  }

  /** One load and its `endLine` decode to one row of its pixels. */
  lemma RowOfOne(e: SinkEvent)
    requires e.LoadRaw? || e.LoadColor?
    ensures RowsOf([e, EndLine], []) == [Pixels(e)]
  {
    RowsOfRow([e], [], []);
    assert [e] + [EndLine] + [] == [e, EndLine];
    assert [e][1..] == [];
    assert [] + Concat([e]) == Pixels(e);
  }

  /** The first row of the format 2 sample is its raw segment at 34. */
  lemma Format2Row(d: seq<Byte>, sd: SpriteDef, p: Byte, fix: bool)
    requires sd.format == 2 && sd.width == 2
    requires |d| == 37 && d[34] == 225 && d[35] == p
    ensures RowAt(d, 32, sd, fix, 0, 34).0 == if fix then [LoadRaw(Slice(d, 35, 2))] else [LoadColor(2, p)]
  {
    RawSegment(d, p);
  }

  /** The raw segment at 34: one load of two pixels, as a color as written. */
  lemma RawSegment(d: seq<Byte>, p: Byte)
    requires |d| == 37 && d[34] == 225 && d[35] == p
    ensures Row(DecoderOf(d, Packed(true)), 34, 2, 0).0 == [LoadColor(2, p)]
    ensures Row(DecoderOf(d, Packed(false)), 34, 2, 0).0 == [LoadRaw(Slice(d, 35, 2))]
  {
    assert PackedSegment(d, 34, true) == (LoadColor(2, p), 2, 37);
    assert PackedSegment(d, 34, false) == (LoadRaw(Slice(d, 35, 2)), 2, 37);
  }
}
