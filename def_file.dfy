/** `CDefFile`: a DEF container opened over a memory stream. The constructor
    reads the palette and the block catalog; `LoadFrame` decodes one frame
    into the calls it makes on a pixel sink. */
module DefFiles {
  import opened Common
  import opened MemoryStreams
  import opened DefFormat

  /** Reads a format 1 segment at `cur`: the type byte, then the length
      byte (length - 1); 0xFF marks raw data, which follows. */
  method NextOpcodeSegment(data: seq<Byte>, cur: nat) returns (e: SinkEvent, len: nat, next: nat)
    ensures (e, len, next) == OpcodeSegment(data, cur)
  {
    var segmentType := At(data, cur);
    len := At(data, cur + 1) + 1;
    if segmentType == 0xFF {
      e := LoadRaw(Slice(data, cur + 2, len));
      next := cur + 2 + len;
    } else {
      e := LoadColor(len, segmentType);
      next := cur + 2;
    }
  }

  /** Reads a format 2 or 3 segment at `cur`: one byte whose top 3 bits are
      the code (7 marks raw data, which follows) and whose low 5 bits are the
      length - 1. */
  method NextPackedSegment(data: seq<Byte>, cur: nat, rawAsColor: bool) returns (e: SinkEvent, len: nat, next: nat)
    ensures (e, len, next) == PackedSegment(data, cur, rawAsColor)
  {
    var segment := At(data, cur);
    var code := segment / 32;
    len := segment % 32 + 1;
    if code == 7 {
      e := if rawAsColor then LoadColor(len, At(data, cur + 1)) else LoadRaw(Slice(data, cur + 1, len));
      next := cur + 1 + len;
    } else {
      e := LoadColor(len, code);
      next := cur + 1;
    }
  }

  /** Reads the segment at `cur` in the layout of the scheme. */
  method NextSegment(data: seq<Byte>, cur: nat, scheme: Scheme) returns (e: SinkEvent, len: nat, next: nat)
    ensures (e, len, next) == Segment(data, cur, scheme)
  {
    match scheme {
      case Opcode8 => e, len, next := NextOpcodeSegment(data, cur);
      case Packed(rawAsColor) => e, len, next := NextPackedSegment(data, cur, rawAsColor);
    }
  }

  /** The segment loop of one row: segments are decoded while the row holds
      fewer than `width` pixels. */
  method DecodeRow(data: seq<Byte>, start: nat, width: nat, scheme: Scheme, dec: Decoder) returns (events: seq<SinkEvent>, next: nat)
    requires forall c {:trigger Segment(data, c, scheme)} :: dec(c) == Segment(data, c, scheme)
    requires Advances(dec, MaxSegment(scheme))
    ensures (events, next) == Row(dec, start, width, 0)
  {
    ghost var whole := Row(dec, start, width, 0);
    var totalRowLength := 0;
    events, next := [], start;
    while totalRowLength < width
      invariant events + Row(dec, next, width, totalRowLength).0 == whole.0
      invariant Row(dec, next, width, totalRowLength).1 == whole.1
      decreases width - totalRowLength
    {
      var e, len, after := NextSegment(data, next, scheme);
      assert dec(next) == (e, len, after);
      RowAdvance(dec, next, width, totalRowLength, events, whole, e, len, after);
      events := events + [e];
      next := after;
      totalRowLength := totalRowLength + len;
    }
    assert Row(dec, next, width, totalRowLength) == ([], next);
    assert events + [] == events;
  }

  /** Row `i` of a frame: format 0 loads `width` bytes of raw data; the
      compressed formats start at the row's position and run the segment
      loop. */
  method DecodeRowAt(data: seq<Byte>, base: nat, sprite: SpriteDef, i: nat, cur: nat) returns (events: seq<SinkEvent>, next: nat)
    requires sprite.format <= 3
    ensures (events, next) == RowAt(data, base, sprite, true, i, cur)
  {
    if sprite.format == 0 {
      events, next := [LoadRaw(Slice(data, cur, sprite.width))], cur + sprite.width;
    } else {
      var scheme := RowScheme(sprite.format, true);
      DecoderAdvances(data, scheme);
      events, next := DecodeRow(data, RowStart(data, base, sprite, i, cur), sprite.width, scheme, DecoderOf(data, scheme));
    }
  }

  /** The row loop of a frame in a supported format: every row's calls,
      each row closed by `endLine`. */
  method DecodeRows(data: seq<Byte>, base: nat, sprite: SpriteDef, rows: RowDecoder, first: nat) returns (events: seq<SinkEvent>)
    requires sprite.format <= 3
    requires forall j: nat, c: nat {:trigger RowAt(data, base, sprite, true, j, c)} :: rows(j, c) == RowAt(data, base, sprite, true, j, c)
    ensures events == RowsFrom(rows, sprite.height, 0, first)
  {
    events := [];
    var cur := first;
    var i := 0;
    while i < sprite.height
      invariant events + RowsFrom(rows, sprite.height, i, cur) == RowsFrom(rows, sprite.height, 0, first)
    {
      var rowEvents, next := DecodeRowAt(data, base, sprite, i, cur);
      assert (rowEvents, next) == rows(i, cur);
      RowsFromStep(rows, sprite.height, i, cur, events);
      events := events + rowEvents + [EndLine];
      cur := next;
      i := i + 1;
    }
    assert RowsFrom(rows, sprite.height, i, cur) == [];
    assert events + [] == events;
  }

  /** One segment decoded: the calls so far followed by the rest of the
      row are still the whole row. */
  lemma RowAdvance(dec: Decoder, cur: nat, width: nat, acc: nat, events: seq<SinkEvent>,
                   whole: (seq<SinkEvent>, nat), e: SinkEvent, len: nat, after: nat)
    requires forall c :: dec(c).1 >= 1
    requires acc < width && dec(cur) == (e, len, after)
    requires events + Row(dec, cur, width, acc).0 == whole.0 && Row(dec, cur, width, acc).1 == whole.1
    ensures (events + [e]) + Row(dec, after, width, acc + len).0 == whole.0
    ensures Row(dec, after, width, acc + len).1 == whole.1
  {
    assert Row(dec, cur, width, acc).0 == [e] + Row(dec, after, width, acc + len).0;
  }

  /** Row `i`'s calls and its `endLine` come first among the rows from `i`. */
  lemma RowsFromStep(rows: RowDecoder, height: nat, i: nat, cur: nat, prefix: seq<SinkEvent>)
    requires i < height
    ensures var r := rows(i, cur);
            prefix + RowsFrom(rows, height, i, cur) == (prefix + r.0 + [EndLine]) + RowsFrom(rows, height, i + 1, r.1)
  {
  }

  /** The palette loop: 256 RGB triples read from the stream, each opaque,
      then entries 0..7 replaced by the fixed colors (all zero for type 71).
      `p0` is where the container header starts. */
  method ReadPalette(stream: MemoryStream, p0: nat, defType: nat) returns (pal: array<Color>)
    requires stream.Valid() && stream.seekPos == p0 + PALETTE_START && defType == LE32(stream.data, p0)
    modifies stream
    ensures stream.Valid() && fresh(pal)
    ensures stream.seekPos == p0 + BLOCKS_START
    ensures pal[..] == Palette(stream.data, p0)
  {
    var d := stream.data;
    pal := new Color[PALETTE_SIZE];
    var i := 0;
    while i < PALETTE_SIZE
      invariant i <= PALETTE_SIZE && stream.Valid()
      invariant stream.seekPos == p0 + PALETTE_START + 3 * i
      invariant forall k :: 0 <= k < i ==> pal[k] == FileColor(d, p0, k)
    {
      var r := stream.ReadInt8();
      var g := stream.ReadInt8();
      var b := stream.ReadInt8();
      pal[i] := Color(r, g, b, 255);
      i := i + 1;
    }
    var k := 0;
    while k < 8
      modifies pal
      invariant k <= 8
      invariant forall j :: 0 <= j < k ==> pal[j] == PaletteEntry(d, p0, defType, j)
      invariant forall j :: 8 <= j < PALETTE_SIZE ==> pal[j] == FileColor(d, p0, j)
    {
      pal[k] := if defType == TYPE_NO_SHADOWS then Color(0, 0, 0, 0) else H3_PALETTE[k];
      k := k + 1;
    }
    assert pal[..] == Palette(d, p0);
  }

  /** One block: its id, its entry count, 8 skipped bytes, the skipped
      13-byte names, then one offset per entry appended to the block's
      group. */
  method ReadBlock(stream: MemoryStream, table: OffsetTable) returns (table': OffsetTable)
    requires stream.Valid()
    modifies stream
    ensures stream.Valid()
    ensures Catalog(table', stream.seekPos) == BlockStep(stream.data, Catalog(table, old(stream.seekPos)))
  {
    var blockId := stream.ReadInt32();
    var totalEntries := stream.ReadInt32();
    stream.IncSeekPos(8);
    stream.IncSeekPos(13 * totalEntries);
    table' := ReadOffsets(stream, table, blockId, totalEntries);
  }

  /** The offsets loop of a block: `n` little-endian offsets read at the
      cursor and appended to the group `id`; nothing changes when `n` is 0. */
  method ReadOffsets(stream: MemoryStream, table: OffsetTable, id: nat, n: nat) returns (table': OffsetTable)
    requires stream.Valid()
    modifies stream
    ensures stream.Valid() && stream.seekPos == old(stream.seekPos) + 4 * n
    ensures table' == if n == 0 then table
                      else table[id := ListAt(table, id) + Offsets(stream.data, old(stream.seekPos), n)]
  {
    var d := stream.data;
    ghost var names := stream.seekPos;
    table' := table;
    var j := 0;
    while j < n
      invariant j <= n && stream.Valid()
      invariant stream.seekPos == names + 4 * j
      invariant table' == if j == 0 then table
                          else table[id := ListAt(table, id) + Offsets(d, names, j)]
    {
      var currOffset := stream.ReadInt32();
      OffsetsSnoc(d, names, j);
      assert ListAt(table', id) + [currOffset] == ListAt(table, id) + Offsets(d, names, j + 1) by {
        if j == 0 {
          assert Offsets(d, names, 1) == [currOffset];
        } else {
          assert ListAt(table', id) == ListAt(table, id) + Offsets(d, names, j);
        }
      }
      table' := table'[id := ListAt(table', id) + [currOffset]];
      j := j + 1;
    }
  }

  /** The block loop of the header: `total` blocks read at the cursor into
      an empty table. */
  method ReadBlocks(stream: MemoryStream, total: nat) returns (table: OffsetTable)
    requires stream.Valid()
    modifies stream
    ensures stream.Valid()
    ensures Catalog(table, stream.seekPos) == Blocks(stream.data, old(stream.seekPos), total)
  {
    ghost var start := stream.seekPos;
    table := map[];
    var block := 0;
    while block < total
      invariant block <= total && stream.Valid()
      invariant Catalog(table, stream.seekPos) == Blocks(stream.data, start, block)
    {
      table := ReadBlock(stream, table);
      block := block + 1;
    }
  }

  /** A DEF container: the stream it was read from, its 256-color palette
      and, per group, the file offset of each frame. */
  class DefFile {
    const data: MemoryStream
    const palette: array<Color>
    var offset: OffsetTable

    ghost predicate Valid()
      reads this, data
    {
      data.Valid() && palette.Length == PALETTE_SIZE
    }

    /** Reads the header at the stream's cursor: the type, the block count,
        the palette (entries 0..7 then replaced by the fixed colors) and
        every block's frame offsets. */
    constructor (stream: MemoryStream)
      requires stream.Valid()
      modifies stream
      ensures Valid() && data == stream && fresh(palette)
      ensures palette[..] == Palette(stream.data, old(stream.seekPos))
      ensures offset == Blocks(stream.data, old(stream.seekPos) + BLOCKS_START, LE32(stream.data, old(stream.seekPos) + 12)).offset
    {
      var p0 := stream.seekPos;
      var defType := stream.ReadInt32();
      stream.IncSeekPos(8);
      var totalBlocks := stream.ReadInt32();
      var pal := ReadPalette(stream, p0, defType);
      var table := ReadBlocks(stream, totalBlocks);
      data := stream;
      palette := pal;
      offset := table;
    }

    /** `loadFrame`: the calls the frame `frame` of group `group` makes on a
        sink; the group must exist and hold that frame. */
    method LoadFrame(frame: nat, group: nat) returns (events: seq<SinkEvent>)
      requires Valid() && group in offset && frame < |offset[group]|
      ensures events == FrameEvents(data.data, offset[group][frame], palette[..])
    {
      var d := data.data;
      var off := offset[group][frame];
      var sprite := ReadSpriteDef(d, off);
      var base := off + SPRITE_DEF_SIZE;
      events := [Init(sprite.width, sprite.height, sprite.leftMargin, sprite.topMargin,
                      sprite.fullWidth, sprite.fullHeight, palette[..])];
      if sprite.format <= 3 {
        FrameBody(d, off, palette[..], true);
        var rows := DecodeRows(d, base, sprite, RowDecoderOf(d, base, sprite, true), FirstCursor(d, base, sprite.format));
        events := events + rows;
      }
    }

    /** `getEntries`: each group with its number of frames. */
    method GetEntries() returns (entries: map<nat, nat>)
      ensures entries == Entries(offset)
    {
      entries := map[];
      var todo := offset.Keys;
      while todo != {}
        invariant todo <= offset.Keys
        invariant entries.Keys == offset.Keys - todo
        invariant forall g :: g in entries ==> entries[g] == |offset[g]|
        decreases todo
      {
        var g :| g in todo;
        entries := entries[g := |offset[g]|];
        todo := todo - {g};
      }
    }
  }
}
