/** `SDLImage`, the plain 8-bit bitmap, and `SDLImageLoader`, the sink that
    copies the pixels a frame loads into the bitmap row after row, `pitch`
    bytes apart. */
module SdlImages {
  import opened Common
  import opened DefFormat
  import opened CompImages

  /** `data` written over `s` from `at` on. */
  function Blit(s: seq<Byte>, at: nat, data: seq<Byte>): (r: seq<Byte>)
    requires at + |data| <= |s|
    ensures |r| == |s|
    ensures forall k :: 0 <= k < at ==> r[k] == s[k]
    ensures forall k :: 0 <= k < |data| ==> r[at + k] == data[k]
    ensures forall k :: at + |data| <= k < |s| ==> r[k] == s[k]
  {
    s[..at] + data + s[at + |data|..]
  }

  /** Two loads in a row write their pixels one after the other: the row
      holds the concatenation of what was loaded. */
  lemma BlitThenBlit(s: seq<Byte>, at: nat, a: seq<Byte>, b: seq<Byte>)
    requires at + |a| + |b| <= |s|
    ensures Blit(Blit(s, at, a), at + |a|, b) == Blit(s, at, a + b)
  {
    var r1 := Blit(Blit(s, at, a), at + |a|, b);
    var r2 := Blit(s, at, a + b);
    forall k | 0 <= k < |s|
      ensures r1[k] == r2[k]
    {
      if at <= k < at + |a| {
        assert r2[at + (k - at)] == (a + b)[k - at];
      } else if at + |a| <= k < at + |a| + |b| {
        assert r1[at + |a| + (k - at - |a|)] == b[k - at - |a|];
        assert r2[at + (k - at)] == (a + b)[k - at];
      }
    }
  }

  class SDLImage {
    /** The 8-bit surface: `pitch` bytes per row. */
    var surf: array?<Byte>
    var pitch: nat
    var palette: seq<Color>
    var margins: Point
    var fullSize: Point

    constructor ()
      ensures surf == null
    {
      surf, pitch, palette := null, 0, [];
      margins, fullSize := Point(0, 0), Point(0, 0);
    }
  }

  class SDLImageLoader {
    const image: SDLImage
    /** Start of the current row in `image.surf`. */
    var lineStart: nat
    /** Write position in `image.surf`. */
    var position: nat
    /** The pixels loaded into the current row so far. */
    ghost var row: seq<Byte>

    /** The current row's pixels sit in the surface from `lineStart` on,
        and the write position follows them. */
    ghost predicate Valid()
      reads this, image, image.surf
    {
      image.surf != null && position == lineStart + |row| &&
      (row != [] ==> position <= image.surf.Length && image.surf[lineStart..position] == row)
    }

    constructor (img: SDLImage)
      ensures image == img && lineStart == 0 && position == 0 && row == []
    {
      image := img;
      lineStart, position := 0, 0;
      row := [];
    }

    /** `init`: a surface of `height` rows of `pitch` bytes (the pitch the
        surface is created with, at least the width), the margins, full
        size and palette; both cursors at the first byte. */
    method Init(width: nat, height: nat, margins: Point, fullSize: Point, pal: seq<Color>, pitch: nat)
      requires width <= pitch
      modifies this, image
      ensures Valid() && fresh(image.surf) && image.surf.Length == pitch * height && image.pitch == pitch
      ensures image.margins == margins && image.fullSize == fullSize && image.palette == pal
      ensures lineStart == 0 && position == 0 && row == []
    {
      image.surf := new Byte[pitch * height](_ => 0);
      image.pitch := pitch;
      image.margins, image.fullSize := margins, fullSize;
      image.palette := pal;
      lineStart, position := 0, 0;
      row := [];
    }

    /** `load(size, data)`: `memcpy` of the pixels at the write position,
        which moves past them. */
    method LoadRaw(data: seq<Byte>)
      requires Valid() && position + |data| <= image.surf.Length
      modifies this, image.surf
      ensures Valid() && lineStart == old(lineStart) && position == old(position) + |data|
      ensures row == old(row) + data
      ensures image.surf[..] == Blit(old(image.surf[..]), old(position), data)
    {
      if |data| > 0 {
        ghost var before := image.surf[..];
        Write(position, data);
        Advanced(before, lineStart, position, data);
        position := position + |data|;
        row := row + data;
      } else {
        assert row + data == row;
        assert image.surf[..] == Blit(image.surf[..], position, data);
      }
    }

    /** `load(size, color)`: `memset` of `size` pixels of `color` at the
        write position, which moves past them. */
    method LoadColor(size: nat, color: Byte)
      requires Valid() && position + size <= image.surf.Length
      modifies this, image.surf
      ensures Valid() && lineStart == old(lineStart) && position == old(position) + size
      ensures row == old(row) + Repeat(color, size)
      ensures image.surf[..] == Blit(old(image.surf[..]), old(position), Repeat(color, size))
    {
      if size > 0 {
        ghost var before := image.surf[..];
        var fill := Repeat(color, size);
        Write(position, fill);
        Advanced(before, lineStart, position, fill);
        position := position + size;
        row := row + fill;
      } else {
        assert row + Repeat(color, 0) == row;
        assert image.surf[..] == Blit(image.surf[..], position, Repeat(color, 0));
      }
    }

    /** The byte-by-byte copy of `data` into the surface from `at` on. */
    method Write(at: nat, data: seq<Byte>)
      requires image.surf != null && at + |data| <= image.surf.Length
      modifies image.surf
      ensures image.surf[..] == Blit(old(image.surf[..]), at, data)
    {
      ghost var before := image.surf[..];
      var k := 0;
      while k < |data|
        invariant k <= |data|
        invariant image.surf[..] == Blit(before, at, data[..k])
      {
        image.surf[at + k] := data[k];
        k := k + 1;
      }
      assert data[..k] == data;
    }

    /** `endLine`: the next row starts `pitch` bytes after the current one,
        and writing resumes there. */
    method EndLine()
      requires Valid()
      modifies this
      ensures Valid() && lineStart == old(lineStart) + image.pitch && position == lineStart && row == []
    {
      lineStart := lineStart + image.pitch;
      position := lineStart;
      row := [];
    }
  }

  /** After a load the row holds the old row's pixels then the new ones. */
  lemma Advanced(before: seq<Byte>, lineStart: nat, position: nat, data: seq<Byte>)
    requires lineStart <= position && position + |data| <= |before|
    ensures Blit(before, position, data)[lineStart..position + |data|] == before[lineStart..position] + data
  {
    var r := Blit(before, position, data);
    forall k | lineStart <= k < position + |data|
      ensures r[k] == (before[lineStart..position] + data)[k - lineStart]
    {
      if k >= position {
        assert r[position + (k - position)] == data[k - position];
      }
    }
  }
}
