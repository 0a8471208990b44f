/** `CompImage`, the compact RLE image, and `CompImageLoader`, the sink that
    stores the pixels a frame loads as compact segments in the image's
    buffer, row by row. */
module CompImages {
  import opened Common
  import opened DefFormat
  import opened CompFormat

  /** A pair of coordinates; margins may be negative. */
  datatype Point = Point(x: int, y: int)

  /** Margins (`x`, `y`), signed, and sprite size (`w`, `h`). */
  datatype Rect = Rect(x: int, y: int, w: nat, h: nat)

  /** Every finished row is a list of well-formed segments. */
  predicate RowsWellFormed(rows: seq<seq<Segment>>)
    decreases |rows|
  {
    rows == [] || (RowsWellFormed(rows[..|rows| - 1]) && WellFormed(rows[|rows| - 1]))
  }

  /** The bytes of finished rows, one after the other. */
  function EncodeRows(rows: seq<seq<Segment>>): seq<Byte>
    requires RowsWellFormed(rows)
  {
    if rows == [] then [] else EncodeRows(rows[..|rows| - 1]) + Encode(rows[|rows| - 1])
  }

  /** The offsets `line` records: row 0 starts at 0, and each finished row
      is followed by the start of the next, the length of the bytes so far. */
  function RowOffsets(rows: seq<seq<Segment>>): (r: seq<nat>)
    requires RowsWellFormed(rows)
    ensures |r| == |rows| + 1
  {
    if rows == [] then [0] else RowOffsets(rows[..|rows| - 1]) + [|EncodeRows(rows)|]
  }

  /** Row `k` starts right after the bytes of the rows before it, so the
      offsets never decrease. */
  lemma RowOffsetsAt(rows: seq<seq<Segment>>, k: nat)
    requires RowsWellFormed(rows) && k <= |rows|
    ensures RowsWellFormed(rows[..k])
    ensures RowOffsets(rows)[k] == |EncodeRows(rows[..k])|
    ensures k < |rows| ==> RowOffsets(rows)[k] <= RowOffsets(rows)[k + 1]
  {
    RowOffsetsPrefix(rows, k);
    if k < |rows| {
      RowOffsetsPrefix(rows, k + 1);
      var p := rows[..k + 1];
      assert p[..|p| - 1] == rows[..k];
      assert |EncodeRows(p)| == |EncodeRows(rows[..k])| + |Encode(p[|p| - 1])|;
    }
  }

  lemma {:induction false} RowOffsetsPrefix(rows: seq<seq<Segment>>, k: nat)
    requires RowsWellFormed(rows) && k <= |rows|
    ensures RowsWellFormed(rows[..k])
    ensures RowOffsets(rows)[k] == |EncodeRows(rows[..k])|
    decreases |rows|
  {
    if k == |rows| {
      assert rows[..k] == rows;
    } else {
      var front := rows[..|rows| - 1];
      RowOffsetsPrefix(front, k);
      assert front[..k] == rows[..k];
      assert RowOffsets(rows)[k] == RowOffsets(front)[k];
    }
  }

  /** The row offsets never decrease: a row starts no earlier than any row
      before it. */
  lemma RowOffsetsSorted(rows: seq<seq<Segment>>)
    requires RowsWellFormed(rows)
    ensures forall i, j :: 0 <= i <= j < |RowOffsets(rows)| ==> RowOffsets(rows)[i] <= RowOffsets(rows)[j]
  {
    forall i, j | 0 <= i <= j < |RowOffsets(rows)|
      ensures RowOffsets(rows)[i] <= RowOffsets(rows)[j]
    {
      OffsetsBetween(rows, i, j);
    }
  }

  lemma {:induction false} OffsetsBetween(rows: seq<seq<Segment>>, i: nat, j: nat)
    requires RowsWellFormed(rows) && i <= j <= |rows|
    ensures RowOffsets(rows)[i] <= RowOffsets(rows)[j]
    decreases j - i
  {
    if i < j {
      RowOffsetsAt(rows, i);
      OffsetsBetween(rows, i + 1, j);
    }
  }

  /** The written bytes are the finished rows' bytes then the open row's;
      `entry` is the start of the open row's last segment, and there is none
      exactly when the open row is empty. */
  ghost predicate StoredBytes(written: seq<Byte>, rows: seq<seq<Segment>>, cur: seq<Segment>, entry: Option<nat>) {
    RowsWellFormed(rows) && OpenRow(written, EncodeRows(rows), cur, entry)
  }

  /** The written bytes are `done` then the open row's. */
  ghost predicate OpenRow(written: seq<Byte>, done: seq<Byte>, cur: seq<Segment>, entry: Option<nat>) {
    WellFormed(cur) && written == done + Encode(cur) &&
    (entry.None? <==> cur == []) &&
    (entry.Some? ==> entry.value + |SegmentBytes(cur[|cur| - 1])| == |written|)
  }

  /** The loader's model on values: the bytes, the rows, the entry and the
      row offsets agree, `position` is the number of bytes written and one
      offset is recorded per row begun. */
  ghost predicate ModelOf(written: seq<Byte>, rows: seq<seq<Segment>>, cur: seq<Segment>, entry: Option<nat>,
                          offsets: seq<nat>, position: nat, currentLine: nat)
  {
    StoredBytes(written, rows, cur, entry) && offsets == RowOffsets(rows) &&
    position == |written| && |offsets| == currentLine + 1
  }

  class CompImage {
    var sprite: Rect
    var fullSize: Point
    /** The segment bytes, null until `init` sees a non-empty sprite. */
    var surf: array?<Byte>
    /** `line[k]`: offset in `surf` of row `k`; `line[0]` is 0. */
    var line: array?<nat>
    var palette: array?<Color>

    constructor ()
      ensures surf == null && line == null && palette == null
    {
      sprite, fullSize := Rect(0, 0, 0, 0), Point(0, 0);
      surf, line, palette := null, null, null;
    }

    /** `recolorToPlayer`: the last 32 palette entries take the player's
        colors, or the neutral ones for 255 and -1; `playerColors` holds
        32 colors for each of the `limit` players. */
    method RecolorToPlayer(player: int, limit: nat, playerColors: seq<Color>, neutral: seq<Color>)
      requires palette != null && palette.Length == PALETTE_SIZE
      requires |playerColors| == PLAYER_COLORS * limit && |neutral| == PLAYER_COLORS
      requires PlayerBand(player, limit, playerColors, neutral).Some?
      modifies palette
      ensures palette[..] == Recolored(old(palette[..]), PlayerBand(player, limit, playerColors, neutral).value)
    {
      var pal: seq<Color>;
      if 0 <= player < limit {
        pal := playerColors[PLAYER_COLORS * player..PLAYER_COLORS * player + PLAYER_COLORS];
      } else {
        pal := neutral;
      }
      ghost var before := palette[..];
      var i := 0;
      assert before[..FIRST_PLAYER_COLOR] + pal[..0] + before[FIRST_PLAYER_COLOR..] == before;
      while i < PLAYER_COLORS
        invariant i <= PLAYER_COLORS && |pal| == PLAYER_COLORS
        invariant palette[..] == before[..FIRST_PLAYER_COLOR] + pal[..i] + before[FIRST_PLAYER_COLOR + i..]
      {
        ghost var now := palette[..];
        palette[FIRST_PLAYER_COLOR + i] := pal[i];
        assert palette[..] == now[FIRST_PLAYER_COLOR + i := pal[i]];
        BandStep(before, pal, i);
        i := i + 1;
      }
      assert pal[..PLAYER_COLORS] == pal && before[FIRST_PLAYER_COLOR + PLAYER_COLORS..] == [];
    }
  }

  /** One step of the recolor loop: entry 224 + i takes the band's color i. */
  lemma BandStep(before: seq<Color>, pal: seq<Color>, i: nat)
    requires |before| == PALETTE_SIZE && |pal| == PLAYER_COLORS && i < PLAYER_COLORS
    ensures (before[..FIRST_PLAYER_COLOR] + pal[..i] + before[FIRST_PLAYER_COLOR + i..])[FIRST_PLAYER_COLOR + i := pal[i]]
            == before[..FIRST_PLAYER_COLOR] + pal[..i + 1] + before[FIRST_PLAYER_COLOR + i + 1..]
  {
    var l := (before[..FIRST_PLAYER_COLOR] + pal[..i] + before[FIRST_PLAYER_COLOR + i..])[FIRST_PLAYER_COLOR + i := pal[i]];
    var r := before[..FIRST_PLAYER_COLOR] + pal[..i + 1] + before[FIRST_PLAYER_COLOR + i + 1..];
    assert |l| == |r|;
    forall k | 0 <= k < |l|
      ensures l[k] == r[k]
    {
      if k < FIRST_PLAYER_COLOR {
        assert l[k] == before[k] == r[k];
      } else if k < FIRST_PLAYER_COLOR + i {
        assert l[k] == pal[k - FIRST_PLAYER_COLOR] == r[k];
      } else if k > FIRST_PLAYER_COLOR + i {
        assert l[k] == before[k] == r[k];
      }
    }
  }

  /** The player colors take the last `PLAYER_COLORS` palette entries. */
  const PLAYER_COLORS: nat := 32
  const FIRST_PLAYER_COLOR: nat := 224

  /** The colors `recolorToPlayer` uses: the band of player `player` when it
      is below `limit`, the neutral colors for 255 and -1, none otherwise
      (where the source asserts). */
  function PlayerBand(player: int, limit: nat, playerColors: seq<Color>, neutral: seq<Color>): (band: Option<seq<Color>>)
    requires |playerColors| == PLAYER_COLORS * limit && |neutral| == PLAYER_COLORS
    ensures band.Some? <==> (0 <= player < limit || player == 255 || player == -1)
    ensures band.Some? ==> |band.value| == PLAYER_COLORS
    ensures 0 <= player < limit ==> band.value == playerColors[PLAYER_COLORS * player..PLAYER_COLORS * (player + 1)]
    ensures (player == 255 || player == -1) && !(0 <= player < limit) ==> band.value == neutral
  {
    if 0 <= player < limit then
      assert PLAYER_COLORS * player + PLAYER_COLORS <= PLAYER_COLORS * limit;
      Some(playerColors[PLAYER_COLORS * player..PLAYER_COLORS * player + PLAYER_COLORS])
    else if player == 255 || player == -1 then Some(neutral)
    else None
  }

  /** A palette with its player band replaced by `band`. */
  function Recolored(palette: seq<Color>, band: seq<Color>): (r: seq<Color>)
    requires |palette| == PALETTE_SIZE && |band| == PLAYER_COLORS
    ensures |r| == PALETTE_SIZE
    ensures forall i :: 0 <= i < FIRST_PLAYER_COLOR ==> r[i] == palette[i]
    ensures forall i :: 0 <= i < PLAYER_COLORS ==> r[FIRST_PLAYER_COLOR + i] == band[i]
  {
    palette[..FIRST_PLAYER_COLOR] + band
  }

  /** Recoloring twice is recoloring with the second band: only the band is
      ever touched, and it is overwritten whole. */
  lemma RecolorLastWins(palette: seq<Color>, b1: seq<Color>, b2: seq<Color>)
    requires |palette| == PALETTE_SIZE && |b1| == PLAYER_COLORS && |b2| == PLAYER_COLORS
    ensures Recolored(Recolored(palette, b1), b2) == Recolored(palette, b2)
  {
    var r1, r2, r := Recolored(palette, b1), Recolored(Recolored(palette, b1), b2), Recolored(palette, b2);
    forall i | 0 <= i < PALETTE_SIZE
      ensures r2[i] == r[i]
    {
      if i >= FIRST_PLAYER_COLOR {
        assert r2[FIRST_PLAYER_COLOR + (i - FIRST_PLAYER_COLOR)] == b2[i - FIRST_PLAYER_COLOR];
      }
    }
  }

  /** `new SDL_Color[256]` filled by `memcpy` from `pal`. */
  method CopyPalette(pal: seq<Color>) returns (a: array<Color>)
    requires |pal| == PALETTE_SIZE
    ensures fresh(a) && a[..] == pal
  {
    a := new Color[PALETTE_SIZE](i requires 0 <= i < PALETTE_SIZE => pal[i]);
  }

  class CompImageLoader {
    const image: CompImage
    /** Write position in `image.surf`. */
    var position: nat
    /** Start of the segment last written in the current row, if any. */
    var entry: Option<nat>
    var currentLine: nat
    /** The finished rows and the open one, as segments. */
    ghost var rows: seq<seq<Segment>>
    ghost var cur: seq<Segment>
    /** The bytes written so far and the row offsets recorded so far. */
    ghost var written: seq<Byte>
    ghost var offsets: seq<nat>

    /** The segment model: `written` holds the finished rows' bytes then the
        open row's, `entry` is the start of the open row's last segment, and
        `offsets[k]` is where row `k` starts. */
    ghost predicate Model()
      reads this
    {
      ModelOf(written, rows, cur, entry, offsets, position, currentLine)
    }

    /** The buffer holds `bytes` in its first `n` places. */
    ghost predicate Stored(n: nat, bytes: seq<Byte>)
      reads image, image.surf
    {
      image.surf != null && n <= image.surf.Length && image.surf[..n] == bytes
    }

    /** `line` holds the row offsets `offs` in its first places. */
    ghost predicate Lines(offs: seq<nat>)
      reads image, image.line
    {
      image.line != null && |offs| <= image.line.Length && image.line[..|offs|] == offs
    }

    ghost predicate Valid()
      reads this, image, image.surf, image.line, image.palette
    {
      Model() && Stored(position, written) && Lines(offsets) && currentLine < image.line.Length &&
      image.palette != null && image.palette.Length == PALETTE_SIZE && image.surf as object != image.line
    }

    constructor (img: CompImage)
      ensures image == img && position == 0 && entry.None? && currentLine == 0
    {
      image := img;
      position, entry, currentLine := 0, None, 0;
      rows, cur, written, offsets := [], [], [], [0];
    }

    /** `init`: records the sprite's margins and size; for a non-empty
        sprite, copies the palette and allocates the segment buffer for the
        worst case (3 bytes a pixel) and the row offsets, the first being 0. */
    method Init(width: nat, height: nat, leftMargin: int, topMargin: int, fullWidth: nat, fullHeight: nat, pal: seq<Color>)
      requires |pal| == PALETTE_SIZE && entry.None? && currentLine == 0
      modifies this, image
      ensures image.sprite == Rect(leftMargin, topMargin, width, height) && image.fullSize == Point(fullWidth, fullHeight)
      ensures width > 0 && height > 0 ==>
        Valid() && fresh(image.surf) && fresh(image.line) && fresh(image.palette) &&
        image.palette[..] == pal && image.surf.Length == width * height * 3 &&
        image.line.Length == height + 1 && rows == [] && cur == [] && position == 0
      ensures !(width > 0 && height > 0) ==>
        image.surf == old(image.surf) && image.line == old(image.line) && image.palette == old(image.palette)
    {
      image.sprite := Rect(leftMargin, topMargin, width, height);
      image.fullSize := Point(fullWidth, fullHeight);
      if width > 0 && height > 0 {
        Allocate(width * height * 3, height, pal);
      }
    }

    /** The allocations of `init` for a non-empty sprite: `size` bytes of
        segments and `height + 1` row offsets, nothing stored yet. */
    method Allocate(size: nat, height: nat, pal: seq<Color>)
      requires |pal| == PALETTE_SIZE && entry.None? && currentLine == 0
      modifies this, image
      ensures image.sprite == old(image.sprite) && image.fullSize == old(image.fullSize)
      ensures Valid() && fresh(image.surf) && fresh(image.line) && fresh(image.palette) &&
        image.palette[..] == pal && image.surf.Length == size &&
        image.line.Length == height + 1 && rows == [] && cur == [] && position == 0
    {
      image.palette := CopyPalette(pal);
      image.surf := new Byte[size](_ => 0);
      image.line := new nat[height + 1](_ => 0);
      image.line[0] := 0;
      position := 0;
      NothingStored();
      rows, cur, written, offsets := [], [], [], [0];
      assert image.surf[..0] == [];
      assert image.line[..1] == [0];
      assert Model();
      assert Stored(0, []);
      assert Lines([0]);
    }

    /** `newEntry(color, size)`: a run segment `[color, size]` written at
        `position`; it becomes the entry. */
    method NewColorEntry(color: Byte, size: nat)
      requires Valid() && color != 0xFF && 1 <= size <= 255 && position + 2 <= image.surf.Length
      modifies this, image.surf
      ensures Valid() && rows == old(rows) && cur == old(cur) + [Run(color, size)]
      ensures position == old(position) + 2 && currentLine == old(currentLine)
    {
      var p := position;
      RunModel(written, rows, cur, entry, offsets, position, currentLine, color, size);
      PutPair(written, color, size);
      written, entry, position, cur := written + [color, size], Some(p), p + 2, cur + [Run(color, size)];
      assert Model();
      assert Stored(position, written);
      assert Lines(offsets);
    }

    /** `entry[0] = a; entry[1] = b` with `entry` at `position`, after the
        bytes stored so far. */
    method PutPair(ghost bytes: seq<Byte>, a: Byte, b: Byte)
      requires Stored(position, bytes) && position + 2 <= image.surf.Length
      modifies image.surf
      ensures Stored(position + 2, bytes + [a, b])
    {
      image.surf[position] := a;
      image.surf[position + 1] := b;
      assert image.surf[..position + 2] == bytes + [a, b];
    }

    /** A byte before `position` overwritten. */
    method SetByte(ghost bytes: seq<Byte>, k: nat, v: Byte)
      requires Stored(position, bytes) && k < position
      modifies image.surf
      ensures Stored(position, bytes[k := v])
    {
      image.surf[k] := v;
      assert image.surf[..position] == bytes[k := v];
    }

    /** What the buffer holds at the entry: the first byte is the run's
        color or the raw marker, the second the segment's length, and a raw
        segment's first pixel follows. */
    lemma EntryBytes()
      requires Valid() && entry.Some?
      ensures cur != [] && WellFormedSegment(Last(cur)) && entry.value + 2 <= position <= image.surf.Length
      ensures image.surf[entry.value] == (if Last(cur).Run? then Last(cur).color else 0xFF)
      ensures image.surf[entry.value + 1] == (if Last(cur).Run? then Last(cur).size else |Last(cur).bytes|)
      ensures Last(cur).Raw? ==> entry.value + 2 < position && image.surf[entry.value + 2] == Last(cur).bytes[0]
    {
      var e := entry.value;
      assert OpenRow(written, EncodeRows(rows), cur, Some(e));
      EntryAt(written, EncodeRows(rows), cur, e);
      StoredAt(e);
      StoredAt(e + 1);
      if Last(cur).Raw? {
        StoredAt(e + 2);
      }
    }

    /** A byte before the write position is the byte written there. */
    lemma StoredAt(k: nat)
      requires Stored(position, written) && k < position
      ensures k < |written| && image.surf[k] == written[k]
    {
      assert image.surf[..position][k] == image.surf[k];
    }

    /** `entry[1]`: the length of the open row's last segment. */
    method EntrySize() returns (n: Byte)
      requires Valid() && entry.Some?
      ensures cur != [] && entry.value + 2 <= position
      ensures n == (if Last(cur).Run? then Last(cur).size else |Last(cur).bytes|)
    {
      EntryBytes();
      n := image.surf[entry.value + 1];
    }

    /** The test `entry && entry[0] == color` for a color other than 0xFF:
        the open row ends in a run of `color`. */
    method EntryHasRun(color: Byte) returns (b: bool)
      requires Valid() && color != 0xFF
      ensures b <==> cur != [] && Last(cur).Run? && Last(cur).color == color
    {
      b := false;
      if entry.Some? {
        EntryBytes();
        b := image.surf[entry.value] == color;
      }
    }

    /** `typeOf`: 0 for the transparent index 0, 1 for a palette entry that
        is not opaque, 2 for an opaque one. */
    method TypeOfColor(color: Byte) returns (t: nat)
      requires image.palette != null && image.palette.Length == PALETTE_SIZE
      ensures t == TypeOf(image.palette[..], color)
    {
      if color == 0 {
        return 0;
      }
      if image.palette[color].a != 255 {
        return 1;
      }
      return 2;
    }

    /** `memcpy(surf + at, data, n)`: the first `n` pixels of `data` are
        written after the first `at` bytes. */
    method CopyPixels(at: nat, data: seq<Byte>, n: nat)
      requires image.surf != null && n <= |data| && at + n <= image.surf.Length
      modifies image.surf
      ensures image.surf[..at + n] == old(image.surf[..at]) + data[..n]
    {
      ghost var before := image.surf[..at];
      var k := 0;
      while k < n
        invariant k <= n && image.surf[..at + k] == before + data[..k]
      {
        image.surf[at + k] := data[k];
        k := k + 1;
      }
    }

    /** `newEntry(data, size)`: a raw segment `[0xFF, size]` followed by the
        first `size` pixels of `data`; it becomes the entry. */
    method NewRawEntry(data: seq<Byte>, size: nat)
      requires Valid() && 1 <= size <= 255 && size <= |data| && position + 2 + size <= image.surf.Length
      modifies this, image.surf
      ensures Valid() && rows == old(rows) && currentLine == old(currentLine)
      ensures cur == old(cur) + [Raw(data[..size])] && position == old(position) + 2 + size
    {
      var p := position;
      ghost var bytes := data[..size];
      RawModel(written, rows, cur, entry, offsets, position, currentLine, bytes);
      WriteRaw(written, data, size);
      written, entry, position, cur := (written + [0xFF, |bytes|]) + bytes, Some(p), p + 2 + size, cur + [Raw(bytes)];
      assert Model();
      assert Stored(position, written);
      assert Lines(offsets);
    }

    /** The bytes of a raw segment of the first `size` pixels of `data`,
        after the bytes stored so far. */
    method WriteRaw(ghost bytes: seq<Byte>, data: seq<Byte>, size: Byte)
      requires Stored(position, bytes) && size <= |data| && position + 2 + size <= image.surf.Length
      modifies image.surf
      ensures Stored(position + 2 + size, (bytes + [0xFF, size]) + data[..size])
    {
      PutPair(bytes, 0xFF, size);
      CopyPixels(position + 2, data, size);
    }

    /** The merge at the start of `load(size, color)`: the entry, a run of
        `color`, takes as many of the `size` pixels as fit in 255; the
        pixels it takes are returned. */
    method GrowRunEntry(color: Byte, size: nat) returns (toCopy: nat)
      requires Valid() && entry.Some? && cur != [] && Last(cur).Run? && Last(cur).color == color
      modifies this, image.surf
      ensures Valid() && rows == old(rows) && currentLine == old(currentLine) && position == old(position)
      ensures toCopy == Min(size, 255 - Last(old(cur)).size)
      ensures cur == WithLastRun(old(cur), Last(old(cur)).size + toCopy)
    {
      ghost var c0 := cur;
      var e := entry.value;
      var n := EntrySize();
      assert cur == c0 && n == Last(c0).size;
      toCopy := Min(size, 255 - n);
      var grown: Byte := n + toCopy;
      GrowRun(e, grown);
      assert cur == WithLastRun(c0, grown);
    }

    /** The entry at `e`, a run, grows to `grown` pixels: only its length
        byte changes. */
    method GrowRun(e: nat, grown: Byte)
      requires Valid() && entry == Some(e) && cur != [] && Last(cur).Run? && 1 <= grown
      modifies this, image.surf
      ensures Valid() && rows == old(rows) && currentLine == old(currentLine) && position == old(position)
      ensures cur == WithLastRun(old(cur), grown)
    {
      GrowRunModel(written, rows, cur, e, offsets, position, currentLine, grown);
      SetByte(written, e + 1, grown);
      written, cur := written[e + 1 := grown], WithLastRun(cur, grown);
      assert Model();
      assert Stored(position, written);
      assert Lines(offsets);
    }

    /** The loop ending `load(size, color)`: runs of 255 while more than 255
        pixels remain, then one run for the rest. */
    method NewColorEntries(color: Byte, size: nat)
      requires Valid() && color != 0xFF && position + 3 * size <= image.surf.Length
      modifies this, image.surf
      ensures Valid() && rows == old(rows) && currentLine == old(currentLine)
      ensures cur == old(cur) + RunsOf(color, size)
      ensures old(position) <= position <= old(position) + 3 * size
    {
      var remaining := size;
      while remaining > 255
        invariant Valid() && rows == old(rows) && currentLine == old(currentLine)
        invariant cur + RunsOf(color, remaining) == old(cur) + RunsOf(color, size)
        invariant old(position) <= position && position + 3 * remaining <= old(position) + 3 * size
      {
        RunsOfStep(color, remaining);
        AppendAssoc(cur, [Run(color, 255)], RunsOf(color, remaining - 255));
        NewColorEntry(color, 255);
        remaining := remaining - 255;
      }
      RunsOfStep(color, remaining);
      if remaining > 0 {
        NewColorEntry(color, remaining);
      } else {
        assert RunsOf(color, 0) == [];
        assert cur + [] == cur;
      }
    }

    /** `load(size, color)` for a color other than 0xFF: a run entry of the
        same color is filled up to 255 first, then new runs of up to 255
        pixels follow. */
    method LoadRuns(color: Byte, size: nat)
      requires Valid() && color != 0xFF && position + 3 * size <= image.surf.Length
      modifies this, image.surf
      ensures Valid() && rows == old(rows) && currentLine == old(currentLine)
      ensures cur == AddColor(old(cur), color, size)
      ensures old(position) <= position <= old(position) + 3 * size
    {
      if size == 0 {
        return;
      }
      ghost var start := cur;
      var remaining: nat := size;
      var merge := EntryHasRun(color);
      if merge {
        var toCopy := GrowRunEntry(color, remaining);
        remaining := remaining - toCopy;
      }
      RunsAfterMerge(start, color, size, cur, remaining);
      NewColorEntries(color, remaining);
    }

    /** The selection of a raw block's length in `load(size, data)`: the
        first pixel is taken, and each next one while it has the first
        pixel's type, stopping after a second 0xFF. */
    method RawBlockLength(data: seq<Byte>) returns (n: nat)
      requires image.palette != null && image.palette.Length == PALETTE_SIZE && data != []
      ensures n == RawRun(data, image.palette[..], 1)
    {
      ghost var pal := image.palette[..];
      n := 1;
      var color := data[0];
      var t := TypeOfColor(color);
      var going := |data| > 1;
      while going
        invariant 1 <= n <= |data|
        invariant forall k :: 0 <= k < n ==> TypeOf(pal, data[k]) == TypeOf(pal, data[0])
        invariant going ==> n < |data| && RawRun(data, pal, n) == RawRun(data, pal, 1)
        invariant !going ==> n == RawRun(data, pal, 1)
        decreases |data| - n, going
      {
        var color2 := data[n];
        var t2 := TypeOfColor(color2);
        if t2 != t {
          going := false;
        } else {
          n := n + 1;
          going := n < |data| && (color2 != 0xFF || color2 != color);
        }
      }
    }

    /** The buffer writes of the raw merge: the entry's length byte `k`
        becomes `grown` and the first `n` pixels of `chunk` follow the bytes
        written so far. */
    method WriteGrownRaw(ghost bytes: seq<Byte>, k: nat, grown: Byte, chunk: seq<Byte>, n: nat)
      requires Stored(position, bytes) && k < position && n <= |chunk| && position + n <= image.surf.Length
      modifies image.surf
      ensures Stored(position + n, bytes[k := grown] + chunk[..n])
    {
      SetByte(bytes, k, grown);
      CopyPixels(position, chunk, n);
    }

    /** The merge at the start of storing a raw block: the entry, a raw
        segment of the block's type, takes as many of the block's pixels as
        fit in 255; the pixels it takes are returned. */
    method GrowRawEntry(chunk: seq<Byte>) returns (toCopy: nat)
      requires Valid() && entry.Some? && cur != [] && Last(cur).Raw? && position + |chunk| <= image.surf.Length
      modifies this, image.surf
      ensures Valid() && rows == old(rows) && currentLine == old(currentLine)
      ensures toCopy == Min(|chunk|, 255 - |Last(old(cur)).bytes|) && position == old(position) + toCopy
      ensures cur == WithLast(old(cur), Raw(Last(old(cur)).bytes + chunk[..toCopy]))
    {
      var e := entry.value;
      var n := EntrySize();
      toCopy := Min(|chunk|, 255 - n);
      var grown: Byte := n + toCopy;
      GrowRaw(e, grown, chunk, toCopy);
    }

    /** The entry at `e`, a raw segment, takes the first `n` pixels of
        `chunk`: its length byte becomes `grown` and the pixels follow the
        bytes written so far. */
    method GrowRaw(e: nat, grown: Byte, chunk: seq<Byte>, n: nat)
      requires Valid() && entry == Some(e) && cur != [] && Last(cur).Raw? && grown == |Last(cur).bytes| + n
      requires n <= |chunk| && position + n <= image.surf.Length
      modifies this, image.surf
      ensures Valid() && rows == old(rows) && currentLine == old(currentLine) && position == old(position) + n
      ensures cur == WithLast(old(cur), Raw(Last(old(cur)).bytes + chunk[..n]))
    {
      ghost var extra := chunk[..n];
      GrowRawModel(written, rows, cur, e, offsets, position, currentLine, extra, grown);
      WriteGrownRaw(written, e + 1, grown, chunk, n);
      written, cur, position := written[e + 1 := grown] + extra, WithLast(cur, Raw(Last(cur).bytes + extra)), position + n;
      assert Model();
      assert Stored(position, written);
      assert Lines(offsets);
    }

    /** The loop ending `load(size, data)`: raw entries of 255 pixels while
        more than 255 remain, then one for the rest. */
    method NewRawEntries(rest: seq<Byte>)
      requires Valid() && position + 3 * |rest| <= image.surf.Length
      modifies this, image.surf
      ensures Valid() && rows == old(rows) && currentLine == old(currentLine)
      ensures cur == old(cur) + RawBlocks(rest)
      ensures old(position) <= position <= old(position) + 3 * |rest|
    {
      var k := 0;
      while |rest| - k > 255
        invariant k <= |rest| && Valid() && rows == old(rows) && currentLine == old(currentLine)
        invariant cur + RawBlocks(rest[k..]) == old(cur) + RawBlocks(rest)
        invariant old(position) <= position && position + 3 * (|rest| - k) <= old(position) + 3 * |rest|
      {
        RawBlocksStep(rest, k);
        AppendAssoc(cur, [Raw(rest[k..k + 255])], RawBlocks(rest[k + 255..]));
        NewRawEntry(rest[k..k + 255], 255);
        k := k + 255;
      }
      RawBlocksStep(rest, k);
      if k < |rest| {
        NewRawEntry(rest[k..], |rest| - k);
      } else {
        assert cur + [] == cur;
      }
    }

    /** The test `entry && entry[0] == 0xff && type == typeOf(entry[2])`:
        the open row ends in a raw segment whose pixels have type `t`. */
    method EntryTakesRaw(t: nat) returns (b: bool)
      requires Valid()
      ensures b <==> cur != [] && Last(cur).Raw? && t == TypeOf(image.palette[..], Last(cur).bytes[0])
    {
      b := false;
      if entry.Some? {
        EntryBytes();
        if image.surf[entry.value] == 0xFF {
          var t0 := TypeOfColor(image.surf[entry.value + 2]);
          b := t == t0;
        }
      }
    }

    /** A raw block of one type stored as `load(size, data)` does: merged
        into the entry when it is a raw segment of the same type, the rest
        in new raw entries. */
    method StoreRaw(chunk: seq<Byte>)
      requires Valid() && chunk != [] && position + 3 * |chunk| <= image.surf.Length
      modifies this, image.surf
      ensures Valid() && rows == old(rows) && currentLine == old(currentLine)
      ensures cur == AppendRaw(old(cur), chunk, image.palette[..])
      ensures old(position) <= position <= old(position) + 3 * |chunk|
    {
      ghost var start := cur;
      var t := TypeOfColor(chunk[0]);
      var taken := 0;
      var merge := EntryTakesRaw(t);
      if merge {
        taken := GrowRawEntry(chunk);
      }
      RawAfterMerge(start, chunk, image.palette[..], cur, taken);
      NewRawEntries(chunk[taken..]);
    }

    /** `load(size, data)`: while pixels remain, a run of two or more equal
        pixels (other than 0xFF) is loaded as color runs, and otherwise a
        block of one type is chosen and stored raw. */
    method LoadRaw(data: seq<Byte>)
      requires Valid() && position + 3 * |data| <= image.surf.Length
      modifies this, image.surf
      ensures Valid() && rows == old(rows) && currentLine == old(currentLine)
      ensures cur == AddRaw(old(cur), data, image.palette[..])
      ensures old(position) <= position <= old(position) + 3 * |data|
    {
      ghost var pal := image.palette[..];
      var rest := data;
      while rest != []
        invariant Valid() && rows == old(rows) && currentLine == old(currentLine)
        invariant AddRaw(cur, rest, pal) == AddRaw(old(cur), data, pal)
        invariant old(position) <= position && position + 3 * |rest| <= old(position) + 3 * |data|
        decreases |rest|
      {
        AddRawUnfold(cur, rest, pal);
        var run := 1;
        if rest[0] != 0xFF {
          run := SameRunLength(rest);
        }
        if run > 1 {
          LoadRuns(rest[0], run);
          rest := rest[run..];
        } else {
          var n := RawBlockLength(rest);
          StoreRaw(rest[..n]);
          rest := rest[n..];
        }
      }
    }

    /** `load(size, color)`: nothing for size 0; 0xFF, the raw marker, is
        loaded as `size` raw pixels of 0xFF; any other color as runs. */
    method LoadColor(size: nat, color: Byte)
      requires Valid() && position + 3 * size <= image.surf.Length
      modifies this, image.surf
      ensures Valid() && rows == old(rows) && currentLine == old(currentLine)
      ensures cur == AddFill(old(cur), color, size, image.palette[..])
      ensures old(position) <= position <= old(position) + 3 * size
    {
      if size == 0 {
        return;
      }
      if color == 0xFF {
        LoadRaw(Repeat(0xFF, size));
        return;
      }
      LoadRuns(color, size);
    }

    /** `endLine`: the next row starts at `position`, and no segment of the
        finished row is continued. */
    method EndLine()
      requires Valid() && currentLine + 1 < image.line.Length
      modifies this, image.line
      ensures Valid() && rows == old(rows) + [old(cur)] && cur == []
      ensures currentLine == old(currentLine) + 1 && image.line[currentLine] == position
      ensures position == old(position) && entry.None?
    {
      RowEnded(written, rows, cur, entry);
      currentLine := currentLine + 1;
      image.line[currentLine] := position;
      assert image.line[..currentLine + 1] == offsets + [position];
      rows, cur, offsets, entry := rows + [cur], [], offsets + [position], None;
      assert Model();
      assert Stored(position, written);
      assert Lines(offsets);
    }
  }

  /** `AddColor` as `load(size, color)` computes it: the row after the
      merge, if any, followed by the runs for the pixels left. */
  lemma RunsAfterMerge(start: seq<Segment>, color: Byte, size: nat, mid: seq<Segment>, remaining: nat)
    requires color != 0xFF && WellFormed(start) && size > 0
    requires start != [] && Last(start).Run? && Last(start).color == color ==>
      remaining == size - Min(size, 255 - Last(start).size) &&
      mid == WithLastRun(start, Last(start).size + Min(size, 255 - Last(start).size))
    requires !(start != [] && Last(start).Run? && Last(start).color == color) ==> mid == start && remaining == size
    ensures mid + RunsOf(color, remaining) == AddColor(start, color, size)
  {
  }

  /** The length of the run of equal pixels at the start of `data`, as the
      loop of `load(size, data)` counts it. */
  method SameRunLength(data: seq<Byte>) returns (run: nat)
    requires data != []
    ensures run == SameRun(data, 1)
  {
    run := 1;
    while run < |data| && data[run] == data[0]
      invariant 1 <= run <= |data|
      invariant forall k :: 0 <= k < run ==> data[k] == data[0]
      invariant SameRun(data, run) == SameRun(data, 1)
      decreases |data| - run
    {
      run := run + 1;
    }
  }

  /** `AppendRaw` as storing a raw block computes it: the row after the
      merge, if any, followed by raw blocks for the pixels left. */
  lemma RawAfterMerge(start: seq<Segment>, chunk: seq<Byte>, palette: seq<Color>, mid: seq<Segment>, taken: nat)
    requires |palette| == PALETTE_SIZE && WellFormed(start) && chunk != []
    requires start != [] && Last(start).Raw? && TypeOf(palette, chunk[0]) == TypeOf(palette, Last(start).bytes[0]) ==>
      taken == Min(|chunk|, 255 - |Last(start).bytes|) && mid == WithLast(start, Raw(Last(start).bytes + chunk[..taken]))
    requires !(start != [] && Last(start).Raw? && TypeOf(palette, chunk[0]) == TypeOf(palette, Last(start).bytes[0])) ==>
      mid == start && taken == 0
    ensures taken <= |chunk| && mid + RawBlocks(chunk[taken..]) == AppendRaw(start, chunk, palette)
  {
    if !(start != [] && Last(start).Raw? && TypeOf(palette, chunk[0]) == TypeOf(palette, Last(start).bytes[0])) {
      assert chunk[0..] == chunk;
    }
  }

  /** One step of the raw entry loop: the blocks from `k` on are a block of
      255 and the blocks after it when more than 255 remain, else at most
      one block of the rest. */
  lemma RawBlocksStep(rest: seq<Byte>, k: nat)
    requires k <= |rest|
    ensures |rest| - k > 255 ==> RawBlocks(rest[k..]) == [Raw(rest[k..k + 255])] + RawBlocks(rest[k + 255..])
    ensures |rest| - k > 255 ==> rest[k..k + 255][..255] == rest[k..k + 255]
    ensures 0 < |rest| - k <= 255 ==> RawBlocks(rest[k..]) == [Raw(rest[k..][..|rest| - k])]
    ensures k == |rest| ==> RawBlocks(rest[k..]) == []
  {
    if |rest| - k > 255 {
      assert rest[k..][..255] == rest[k..k + 255];
      assert rest[k..][255..] == rest[k + 255..];
    } else if k < |rest| {
      assert rest[k..][..|rest| - k] == rest[k..];
    }
  }

  /** Before any row: no bytes, no entry, and row 0 starts at 0. */
  lemma NothingStored()
    ensures StoredBytes([], [], [], None) && RowOffsets([]) == [0]
  {
  }

  /** Ending the open row: the buffer is unchanged, the open row joins the
      finished ones, and the next row's offset is the current length. */
  lemma RowEnded(written: seq<Byte>, rows: seq<seq<Segment>>, cur: seq<Segment>, entry: Option<nat>)
    requires StoredBytes(written, rows, cur, entry)
    ensures StoredBytes(written, rows + [cur], [], None)
    ensures RowOffsets(rows + [cur]) == RowOffsets(rows) + [|written|]
  {
    var rows' := rows + [cur];
    assert rows'[..|rows'| - 1] == rows;
  }

  /** The entry is the open row's last segment: its first byte is the run
      color or 0xFF, its second the segment size, and it ends the written
      bytes. */
  lemma EntryAt(written: seq<Byte>, done: seq<Byte>, cur: seq<Segment>, e: nat)
    requires OpenRow(written, done, cur, Some(e))
    ensures cur != [] && WellFormedSegment(Last(cur))
    ensures e + |SegmentBytes(Last(cur))| == |written|
    ensures written[e] == (if Last(cur).Run? then Last(cur).color else 0xFF)
    ensures written[e + 1] == (if Last(cur).Run? then Last(cur).size else |Last(cur).bytes|)
    ensures Last(cur).Raw? ==> e + 2 < |written| && written[e + 2] == Last(cur).bytes[0]
  {
    var last := Last(cur);
    assert WellFormedSegment(cur[|cur| - 1]);
    EncodeWithLast(cur, last);
    var pre := done + Encode(cur[..|cur| - 1]);
    var sb := SegmentBytes(last);
    AppendAssoc(done, Encode(cur[..|cur| - 1]), sb);
    assert written == pre + sb && e == |pre|;
    assert written[e] == sb[0] && written[e + 1] == sb[1];
    if last.Raw? {
      assert written[e + 2] == sb[2] == sb[2..][0];
    }
  }

  /** Appending a run segment's two bytes keeps the buffer in step with the
      open row, and the new segment becomes the entry. */
  lemma StoredRun(written: seq<Byte>, done: seq<Byte>, cur: seq<Segment>, entry: Option<nat>, color: Byte, size: nat)
    requires OpenRow(written, done, cur, entry) && color != 0xFF && 1 <= size <= 255
    ensures OpenRow(written + [color, size], done, cur + [Run(color, size)], Some(|written|))
  {
    EncodeSnoc(cur, Run(color, size));
  }

  /** Appending a raw segment's bytes keeps the buffer in step with the open
      row, and the new segment becomes the entry. */
  lemma StoredRaw(written: seq<Byte>, done: seq<Byte>, cur: seq<Segment>, entry: Option<nat>, bytes: seq<Byte>)
    requires OpenRow(written, done, cur, entry) && 1 <= |bytes| <= 255
    ensures OpenRow((written + [0xFF, |bytes|]) + bytes, done, cur + [Raw(bytes)], Some(|written|))
  {
    var s := Raw(bytes);
    assert WellFormedSegment(s);
    var sb := SegmentBytes(s);
    assert sb == [0xFF, |bytes|] + bytes;
    AppendAssoc(written, [0xFF, |bytes|], bytes);
    EncodeSnoc(cur, s);
    AppendAssoc(done, Encode(cur), sb);
    WellFormedAppend(cur, [s]);
    assert (cur + [s])[|cur|] == s;
  }

  /** Growing the entry, a run, to `size` changes only its length byte. */
  lemma StoredGrowRun(written: seq<Byte>, done: seq<Byte>, cur: seq<Segment>, e: nat, size: nat)
    requires OpenRow(written, done, cur, Some(e)) && Last(cur).Run? && 1 <= size <= 255
    ensures e + 1 < |written|
    ensures OpenRow(written[e + 1 := size], done, WithLastRun(cur, size), Some(e))
  {
    var s := Run(Last(cur).color, size);
    EncodeWithLast(cur, s);
    var front := cur[..|cur| - 1];
    var head := done + Encode(front);
    SetAfter(head, [Last(cur).color, Last(cur).size], 1, size, []);
  }

  /** The model after a run is appended: it becomes the entry. */
  lemma RunModel(written: seq<Byte>, rows: seq<seq<Segment>>, cur: seq<Segment>, entry: Option<nat>,
                 offsets: seq<nat>, position: nat, currentLine: nat, color: Byte, size: nat)
    requires ModelOf(written, rows, cur, entry, offsets, position, currentLine) && color != 0xFF && 1 <= size <= 255
    ensures ModelOf(written + [color, size], rows, cur + [Run(color, size)], Some(position),
                    offsets, position + 2, currentLine)
  {
    StoredRun(written, EncodeRows(rows), cur, entry, color, size);
  }

  /** The model after a raw segment is appended: it becomes the entry. */
  lemma RawModel(written: seq<Byte>, rows: seq<seq<Segment>>, cur: seq<Segment>, entry: Option<nat>,
                 offsets: seq<nat>, position: nat, currentLine: nat, bytes: seq<Byte>)
    requires ModelOf(written, rows, cur, entry, offsets, position, currentLine) && 1 <= |bytes| <= 255
    ensures ModelOf((written + [0xFF, |bytes|]) + bytes, rows, cur + [Raw(bytes)], Some(position),
                    offsets, position + 2 + |bytes|, currentLine)
  {
    StoredRaw(written, EncodeRows(rows), cur, entry, bytes);
  }

  /** The model after the run merge: the entry's length byte changes. */
  lemma GrowRunModel(written: seq<Byte>, rows: seq<seq<Segment>>, cur: seq<Segment>, e: nat,
                     offsets: seq<nat>, position: nat, currentLine: nat, size: nat)
    requires ModelOf(written, rows, cur, Some(e), offsets, position, currentLine) && Last(cur).Run? && 1 <= size <= 255
    ensures e + 1 < position
    ensures ModelOf(written[e + 1 := size], rows, WithLastRun(cur, size), Some(e), offsets, position, currentLine)
  {
    StoredGrowRun(written, EncodeRows(rows), cur, e, size);
  }

  /** The model after the raw merge: the entry grows by `extra` pixels,
      which follow the bytes written so far. */
  lemma GrowRawModel(written: seq<Byte>, rows: seq<seq<Segment>>, cur: seq<Segment>, e: nat,
                     offsets: seq<nat>, position: nat, currentLine: nat, extra: seq<Byte>, size: Byte)
    requires ModelOf(written, rows, cur, Some(e), offsets, position, currentLine)
    requires Last(cur).Raw? && size == |Last(cur).bytes| + |extra|
    ensures e + 1 < position
    ensures ModelOf(written[e + 1 := size] + extra, rows, WithLast(cur, Raw(Last(cur).bytes + extra)), Some(e),
                    offsets, position + |extra|, currentLine)
  {
    StoredGrowRaw(written, EncodeRows(rows), cur, e, extra, size);
  }

  /** Growing the entry, a raw segment, by `extra` pixels changes its length
      byte and appends the pixels. */
  lemma StoredGrowRaw(written: seq<Byte>, done: seq<Byte>, cur: seq<Segment>, e: nat, extra: seq<Byte>, size: Byte)
    requires OpenRow(written, done, cur, Some(e)) && Last(cur).Raw? && size == |Last(cur).bytes| + |extra|
    ensures e + 1 < |written|
    ensures OpenRow(written[e + 1 := size] + extra, done,
                    WithLast(cur, Raw(Last(cur).bytes + extra)), Some(e))
  {
    var bytes := Last(cur).bytes;
    var s := Raw(bytes + extra);
    assert WellFormedSegment(cur[|cur| - 1]);
    assert Last(cur) == Raw(bytes);
    assert WellFormedSegment(s);
    EncodeWithLast(cur, s);
    var front := Encode(cur[..|cur| - 1]);
    AppendAssoc(done, front, SegmentBytes(Raw(bytes)));
    assert e == |done| + |front|;
    GrowRawBytes(written, done, front, bytes, extra, e, size);
    var grown := WithLast(cur, s);
    var after := written[e + 1 := size] + extra;
    assert Encode(grown) == front + SegmentBytes(s);
    assert WellFormed(grown);
    assert grown[|grown| - 1] == s;
    assert e + |SegmentBytes(s)| == |after|;
  }

  /** The bytes of a raw segment grown by `extra`: its length byte is
      updated and `extra` is appended. */
  lemma GrowRawBytes(written: seq<Byte>, done: seq<Byte>, front: seq<Byte>, bytes: seq<Byte>, extra: seq<Byte>,
                     e: nat, size: Byte)
    requires size == |bytes| + |extra| && 1 <= |bytes|
    requires e == |done| + |front|
    requires written == done + (front + SegmentBytes(Raw(bytes)))
    ensures e + 1 < |written|
    ensures written[e + 1 := size] + extra == done + (front + SegmentBytes(Raw(bytes + extra)))
  {
    var head := done + front;
    var tail := [0xFF, |bytes|] + bytes;
    assert SegmentBytes(Raw(bytes)) == tail;
    AppendAssoc(done, front, tail);
    assert written == head + tail && |head| == e;
    SetAfter(head, tail, 1, size, extra);
    assert written[e + 1 := size] + extra == head + (tail[1 := size] + extra);
    RawHeaderSet(bytes, extra, size);
    assert SegmentBytes(Raw(bytes + extra)) == [0xFF, size] + (bytes + extra);
    AppendAssoc(done, front, [0xFF, size] + (bytes + extra));
  }

  /** Setting the length byte of a raw segment's bytes and appending
      `extra` gives the bytes of the grown segment. */
  lemma RawHeaderSet(bytes: seq<Byte>, extra: seq<Byte>, size: Byte)
    ensures ([0xFF, |bytes|] + bytes)[1 := size] + extra == [0xFF, size] + (bytes + extra)
  {
    var l := ([0xFF, |bytes|] + bytes)[1 := size] + extra;
    var r := [0xFF, size] + (bytes + extra);
    assert |l| == |r|;
    forall k | 0 <= k < |l|
      ensures l[k] == r[k]
    {
      if k >= 2 + |bytes| {
        assert l[k] == extra[k - 2 - |bytes|];
      } else if k >= 2 {
        assert l[k] == bytes[k - 2];
      }
    }
  }

  /** Updating a byte of the tail of a sequence and appending leaves the head
      alone. */
  lemma SetAfter(head: seq<Byte>, tail: seq<Byte>, k: nat, v: Byte, extra: seq<Byte>)
    requires k < |tail|
    ensures (head + tail)[|head| + k := v] + extra == head + (tail[k := v] + extra)
  {
  }
}
