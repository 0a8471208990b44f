/** Resource loaders: the catalog of a LOD, sound or video archive, or the
    files of a folder, turned into archive entries and locator registrations;
    and loading one resource's bytes. */
module Loaders {
  import opened Common
  import opened ResourceNames
  import opened MemoryStreams
  import opened ResourceMaps

  /** Catalog information about one archived file. The numeric fields are
      32-bit signed integers, as in the archive entry structure. */
  datatype ArchiveEntry = ArchiveEntry(name: string, rtype: ResType, offset: int, realSize: int, size: int)

  /** The archive entry constructors: a name (empty by default) and a type
      (OTHER by default); offset, real size and size start at zero. */
  function NewArchiveEntry(name: string := "", rtype: ResType := Other): (e: ArchiveEntry)
    ensures e.name == name && e.rtype == rtype
    ensures e.offset == 0 && e.realSize == 0 && e.size == 0
  {
    ArchiveEntry(name, rtype, 0, 0, 0)
  }

  /** Catalog records as they are stored in the archives (little-endian
      32-bit fields already decoded). */
  datatype LodRecord = LodRecord(filename: string, offset: nat, uncompressedSize: nat, size: nat)
  datatype SoundRecord = SoundRecord(filename: string, offset: nat, size: nat)
  datatype VideoRecord = VideoRecord(filename: string, offset: nat)

  /** What a loader reads from: an archive's catalog and bytes, or the
      relative paths a folder walk produced together with the bytes readable
      under each name. */
  datatype Source =
    | LodArchive(lod: seq<LodRecord>, archive: seq<Byte>)
    | SoundArchive(sounds: seq<SoundRecord>, archive: seq<Byte>)
    | VideoArchive(videos: seq<VideoRecord>, archive: seq<Byte>)
    | Folder(paths: seq<string>, files: map<string, seq<Byte>>)

  /** A video archive shorter than this many bytes holds nothing. */
  const VIDEO_MIN_FILE_SIZE: nat := 48

  /** Number of catalog records the loader enumerates. */
  function RecordCount(src: Source): (n: nat)
    ensures src.VideoArchive? && |src.archive| < VIDEO_MIN_FILE_SIZE ==> n == 0
  {
    match src
    case LodArchive(lod, _) => |lod|
    case SoundArchive(sounds, _) => |sounds|
    case VideoArchive(videos, archive) => if |archive| < VIDEO_MIN_FILE_SIZE then 0 else |videos|
    case Folder(paths, _) => |paths|
  }

  /** The name of the i-th enumerated resource: the archive's file name or
      the folder-relative path. It keys the loader's entry table and is the
      locator's resource name. */
  function NameAt(src: Source, i: nat): string
    requires i < RecordCount(src)
  {
    match src
    case LodArchive(lod, _) => lod[i].filename
    case SoundArchive(sounds, _) => sounds[i].filename
    case VideoArchive(videos, _) => videos[i].filename
    case Folder(paths, _) => paths[i]
  }

  /** Size of the i-th video: the distance to the next entry's offset, or to
      the end of the file for the last entry, stored into a 32-bit int. */
  function VideoSize(videos: seq<VideoRecord>, fileSize: nat, i: nat): int
    requires i < |videos|
  {
    if i == |videos| - 1 then ToInt32(fileSize - videos[i].offset)
    else ToInt32(videos[i + 1].offset - videos[i].offset)
  }

  /** The archive entry built for the i-th record. */
  function EntryAt(src: Source, i: nat): (e: ArchiveEntry)
    requires i < RecordCount(src) && !src.Folder?
    ensures src.LodArchive? ==> e.name + AdaptResourceName(NameAt(src, i)).1 == Upper(NameAt(src, i))
    ensures src.LodArchive? ==>
              e.rtype == ConvertFileExtToResType(AdaptResourceName(NameAt(src, i)).1) &&
              e.offset == ToInt32(src.lod[i].offset) && e.realSize == ToInt32(src.lod[i].uncompressedSize) &&
              e.size == ToInt32(src.lod[i].size)
    ensures !src.LodArchive? ==> e.name == NameAt(src, i) && e.rtype == Other && e.realSize == 0
    ensures src.SoundArchive? ==> e.offset == ToInt32(src.sounds[i].offset) && e.size == ToInt32(src.sounds[i].size)
    ensures src.VideoArchive? ==> e.offset == ToInt32(src.videos[i].offset) && e.size == VideoSize(src.videos, |src.archive|, i)
  {
    match src
    case LodArchive(lod, _) =>
      var split := AdaptResourceName(lod[i].filename);
      ArchiveEntry(split.0, ConvertFileExtToResType(split.1),
                   ToInt32(lod[i].offset), ToInt32(lod[i].uncompressedSize), ToInt32(lod[i].size))
    case SoundArchive(sounds, _) =>
      var e := NewArchiveEntry(sounds[i].filename);
      e.(offset := ToInt32(sounds[i].offset), size := ToInt32(sounds[i].size))
    case VideoArchive(videos, archive) =>
      var e := NewArchiveEntry(videos[i].filename);
      e.(offset := ToInt32(videos[i].offset), size := VideoSize(videos, |archive|, i))
  }

  /** `unordered_map::insert`: a key already present keeps its value. */
  function InsertEntry(entries: map<string, ArchiveEntry>, key: string, e: ArchiveEntry): (r: map<string, ArchiveEntry>)
    ensures r.Keys == entries.Keys + {key}
    ensures key in entries ==> r == entries
    ensures key !in entries ==> r[key] == e
    ensures forall k :: k in entries ==> r[k] == entries[k]
  {
    if key in entries then entries else entries[key := e]
  }

  /** Inserting (key, entry) pairs in order, each with `insert`. */
  function InsertAll(entries: map<string, ArchiveEntry>, pairs: seq<(string, ArchiveEntry)>): map<string, ArchiveEntry>
    decreases |pairs|
  {
    if pairs == [] then entries
    else InsertEntry(InsertAll(entries, pairs[..|pairs| - 1]), pairs[|pairs| - 1].0, pairs[|pairs| - 1].1)
  }

  /** Every inserted key is present afterwards. */
  lemma {:induction false} InsertAllCovers(entries: map<string, ArchiveEntry>, pairs: seq<(string, ArchiveEntry)>, i: nat)
    requires i < |pairs|
    ensures pairs[i].0 in InsertAll(entries, pairs)
    decreases |pairs|
  {
    if i < |pairs| - 1 {
      InsertAllCovers(entries, pairs[..|pairs| - 1], i);
    }
  }

  /** A key absent at first and never inserted stays absent. */
  lemma {:induction false} InsertAllAbsent(entries: map<string, ArchiveEntry>, pairs: seq<(string, ArchiveEntry)>, key: string)
    requires key !in entries
    requires forall j :: 0 <= j < |pairs| ==> pairs[j].0 != key
    ensures key !in InsertAll(entries, pairs)
    decreases |pairs|
  {
    if pairs != [] {
      InsertAllAbsent(entries, pairs[..|pairs| - 1], key);
    }
  }

  /** For a key absent at first, the entry kept is the one of its first pair:
      later duplicates do not replace it. */
  lemma {:induction false} InsertAllFirstWins(entries: map<string, ArchiveEntry>, pairs: seq<(string, ArchiveEntry)>, i: nat)
    requires i < |pairs| && pairs[i].0 !in entries
    requires forall j :: 0 <= j < i ==> pairs[j].0 != pairs[i].0
    ensures pairs[i].0 in InsertAll(entries, pairs)
    ensures InsertAll(entries, pairs)[pairs[i].0] == pairs[i].1
    decreases |pairs|
  {
    var init := pairs[..|pairs| - 1];
    if i < |pairs| - 1 {
      InsertAllFirstWins(entries, init, i);
    } else {
      InsertAllAbsent(entries, init, pairs[i].0);
    }
  }

  /** The (key, entry) pairs the first `n` records of an archive insert. */
  function CatalogPairs(src: Source, n: nat): (pairs: seq<(string, ArchiveEntry)>)
    requires n <= RecordCount(src) && !src.Folder?
    ensures |pairs| == n
    ensures forall i :: 0 <= i < n ==> pairs[i] == (NameAt(src, i), EntryAt(src, i))
  {
    seq(n, i requires 0 <= i < n => (NameAt(src, i), EntryAt(src, i)))
  }

  /** The entry table after the first `n` records; a folder keeps none. */
  function CatalogAfter(src: Source, entries: map<string, ArchiveEntry>, n: nat): map<string, ArchiveEntry>
    requires n <= RecordCount(src)
  {
    if src.Folder? then entries else InsertAll(entries, CatalogPairs(src, n))
  }

  /** The entry table after the whole enumeration. */
  function CatalogEntries(src: Source, entries: map<string, ArchiveEntry>): map<string, ArchiveEntry>
  {
    CatalogAfter(src, entries, RecordCount(src))
  }

  /** The resources map after the first `n` records registered. */
  function RegisteredAfter(src: Source, prefix: string, id: LoaderId, m: ResourcesMap, n: nat): ResourcesMap
    requires n <= RecordCount(src)
  {
    AddAll(m, Registrations(src, prefix, id, n))
  }

  /** The registrations the first `n` records make for loader `id`. Every
      record goes through `addEntryToMap` (the LOD loop builds the same
      identifier by hand), so the identifier is the prefixed, adapted name and
      the locator names the loader and the record's own name. */
  function Registrations(src: Source, prefix: string, id: LoaderId, n: nat): (regs: seq<Registration>)
    requires n <= RecordCount(src)
    ensures |regs| == n
    ensures forall i :: 0 <= i < n ==> regs[i].loc == ResourceLocator(Some(id), NameAt(src, i))
  {
    seq(n, i requires 0 <= i < n =>
      Registration(EntryIdentifier(prefix, NameAt(src, i)), ResourceLocator(Some(id), NameAt(src, i))))
  }

  /** Inserting one more pair. */
  lemma InsertAllStep(entries: map<string, ArchiveEntry>, pairs: seq<(string, ArchiveEntry)>, i: nat)
    requires i < |pairs|
    ensures InsertAll(entries, pairs[..i + 1]) == InsertEntry(InsertAll(entries, pairs[..i]), pairs[i].0, pairs[i].1)
  {
    assert pairs[..i + 1][..i] == pairs[..i];
  }

  /** One more record: one more `insert`. */
  lemma CatalogPairsStep(src: Source, entries: map<string, ArchiveEntry>, i: nat)
    requires i < RecordCount(src) && !src.Folder?
    ensures InsertAll(entries, CatalogPairs(src, i + 1)) ==
            InsertEntry(InsertAll(entries, CatalogPairs(src, i)), NameAt(src, i), EntryAt(src, i))
  {
    var longer := CatalogPairs(src, i + 1);
    assert longer[..i] == CatalogPairs(src, i);
    assert longer[..i + 1] == longer;
    InsertAllStep(entries, longer, i);
  }

  /** One more record: one more registration. */
  lemma RegistrationsStep(src: Source, prefix: string, id: LoaderId, m: ResourcesMap, i: nat)
    requires i < RecordCount(src)
    ensures AddAll(m, Registrations(src, prefix, id, i + 1)) ==
            AddResourceToMap(AddAll(m, Registrations(src, prefix, id, i)),
                             EntryIdentifier(prefix, NameAt(src, i)), ResourceLocator(Some(id), NameAt(src, i)))
  {
    var longer := Registrations(src, prefix, id, i + 1);
    assert longer[..i] == Registrations(src, prefix, id, i);
    assert longer[i] == Registration(EntryIdentifier(prefix, NameAt(src, i)), ResourceLocator(Some(id), NameAt(src, i)));
    assert longer[..i + 1] == longer;
    AddAllStep(m, longer, i);
  }

  /** One loop iteration of the enumeration: the entry is inserted (archives
      only) and the locator registered. */
  lemma EnumerationStep(src: Source, prefix: string, id: LoaderId, entries: map<string, ArchiveEntry>, m: ResourcesMap, i: nat)
    requires i < RecordCount(src)
    ensures CatalogAfter(src, entries, i + 1) ==
            if src.Folder? then CatalogAfter(src, entries, i)
            else InsertEntry(CatalogAfter(src, entries, i), NameAt(src, i), EntryAt(src, i))
    ensures RegisteredAfter(src, prefix, id, m, i + 1) ==
            AddResourceToMap(RegisteredAfter(src, prefix, id, m, i),
                             EntryIdentifier(prefix, NameAt(src, i)), ResourceLocator(Some(id), NameAt(src, i)))
  {
    if !src.Folder? {
      CatalogPairsStep(src, entries, i);
    }
    RegistrationsStep(src, prefix, id, m, i);
  }

  /** The entry table holds every enumerated name, and for a name not there
      before, the entry of the first record carrying it. */
  lemma CatalogEntriesFirstWins(src: Source, entries: map<string, ArchiveEntry>, i: nat)
    requires i < RecordCount(src) && !src.Folder?
    requires NameAt(src, i) !in entries
    requires forall j :: 0 <= j < i ==> NameAt(src, j) != NameAt(src, i)
    ensures NameAt(src, i) in CatalogEntries(src, entries)
    ensures CatalogEntries(src, entries)[NameAt(src, i)] == EntryAt(src, i)
  {
    var pairs := CatalogPairs(src, RecordCount(src));
    forall j | 0 <= j < i ensures pairs[j].0 != pairs[i].0 {
      assert pairs[j].0 == NameAt(src, j);
    }
    InsertAllFirstWins(entries, pairs, i);
  }

  /** The sum of the video sizes of the first n entries. */
  function VideoSizeSum(videos: seq<VideoRecord>, fileSize: nat, n: nat): int
    requires n <= |videos|
  {
    if n == 0 then 0 else VideoSizeSum(videos, fileSize, n - 1) + VideoSize(videos, fileSize, n - 1)
  }

  /** Offsets that are non-decreasing, inside the file, and small enough for
      a 32-bit int. */
  predicate SaneOffsets(videos: seq<VideoRecord>, fileSize: nat) {
    fileSize < TWO_31 &&
    (forall i :: 0 <= i < |videos| ==> videos[i].offset <= fileSize) &&
    (forall i, j :: 0 <= i < j < |videos| ==> videos[i].offset <= videos[j].offset)
  }

  /** Size inference from offsets: with sane offsets each video's size is the
      distance to the next offset (to the end of the file for the last), all
      sizes are non-negative, and together they cover the file from the first
      offset to its end with no gap or overlap. */
  lemma {:induction false} VideoSizesTile(videos: seq<VideoRecord>, fileSize: nat, n: nat)
    requires SaneOffsets(videos, fileSize) && 0 < n <= |videos|
    ensures n < |videos| ==> VideoSizeSum(videos, fileSize, n) == videos[n].offset - videos[0].offset
    ensures n == |videos| ==> VideoSizeSum(videos, fileSize, n) == fileSize - videos[0].offset
    ensures VideoSize(videos, fileSize, n - 1) >= 0
  {
    if n > 1 {
      VideoSizesTile(videos, fileSize, n - 1);
    }
  }

  /** `FCHUNK`: the LOD decompressor feeds its input to the inflater in
      pieces of this many bytes; `DEFAULT_WINDOW_BITS` is the inflater's
      default window size parameter. */
  const FCHUNK: nat := 50000
  const DEFAULT_WINDOW_BITS: nat := 15

  /** The input pieces the decompression loop feeds, as (start, length)
      pairs: consecutive FCHUNK-sized pieces, the last one shorter, and none
      when the input is empty. Stops early only when the inflater reports the
      end of the stream, which is not modelled. */
  method ChunkPlan(size: nat) returns (chunks: seq<(nat, nat)>)
    ensures forall k :: 0 <= k < |chunks| ==> chunks[k].0 == k * FCHUNK
    ensures forall k :: 0 <= k < |chunks| ==> 0 < chunks[k].1 <= FCHUNK
    ensures forall k :: 0 <= k < |chunks| ==> chunks[k].0 + chunks[k].1 <= size
    ensures |chunks| * FCHUNK >= size
    ensures size == 0 <==> chunks == []
  {
    chunks := [];
    var chunkNumber := 0;
    while true
      invariant |chunks| == chunkNumber
      invariant chunkNumber * FCHUNK <= size + FCHUNK
      invariant chunkNumber > 0 ==> chunks[chunkNumber - 1].0 + chunks[chunkNumber - 1].1 == Min(chunkNumber * FCHUNK, size)
      invariant forall k :: 0 <= k < |chunks| ==> chunks[k].0 == k * FCHUNK
      invariant forall k :: 0 <= k < |chunks| ==> 0 < chunks[k].1 <= FCHUNK
      invariant forall k :: 0 <= k < |chunks| ==> chunks[k].0 + chunks[k].1 <= size
      decreases size + FCHUNK - chunkNumber * FCHUNK
    {
      if size < chunkNumber * FCHUNK {
        break;
      }
      var availIn := Min(FCHUNK, size - chunkNumber * FCHUNK);
      if availIn == 0 {
        break;
      }
      chunks := chunks + [(chunkNumber * FCHUNK, availIn)];
      chunkNumber := chunkNumber + 1;
    }
  }

  /** One resource loader: its address, the identifier prefix it registers
      under (ending with '/'), what it reads from, and the table of archive
      entries its enumeration fills. */
  class ResourceLoader {
    const id: LoaderId
    const prefix: string
    const source: Source
    /** The zlib decompressor: input bytes and expected size to output bytes. */
    const inflate: (seq<Byte>, nat) -> seq<Byte>
    var entries: map<string, ArchiveEntry>

    constructor (loaderId: LoaderId, loaderPrefix: string, src: Source, inflater: (seq<Byte>, nat) -> seq<Byte>)
      requires loaderPrefix != [] && loaderPrefix[|loaderPrefix| - 1] == '/'
      ensures id == loaderId && prefix == loaderPrefix && source == src && inflate == inflater
      ensures entries == map[]
    {
      id := loaderId;
      prefix := loaderPrefix;
      source := src;
      inflate := inflater;
      entries := map[];
    }

    /** `insertEntriesIntoResourcesMap`: enumerates the records in order,
        inserting each archive entry (first record wins) and registering its
        locator (with the intended append semantics). */
    method InsertEntriesIntoResourcesMap(m: ResourcesMap) returns (r: ResourcesMap)
      modifies this
      ensures entries == CatalogEntries(source, old(entries))
      ensures r == AddAll(m, Registrations(source, prefix, id, RecordCount(source)))
    {
      r := m;
      ghost var start := entries;
      var n := RecordCount(source);
      var i := 0;
      while i < n
        invariant i <= n
        invariant entries == CatalogAfter(source, start, i)
        invariant r == RegisteredAfter(source, prefix, id, m, i)
      {
        var name := NameAt(source, i);
        EnumerationStep(source, prefix, id, start, m, i);
        if !source.Folder? {
          entries := InsertEntry(entries, name, EntryAt(source, i));
        }
        r := AddResourceToMap(r, EntryIdentifier(prefix, name), ResourceLocator(Some(id), name));
        i := i + 1;
      }
    }

    /** The entry `loadResource` reads for `name`: its own, or the default
        (all-zero) entry, as a build without assertions does. */
    function EntryOf(name: string): (e: ArchiveEntry)
      reads this
      ensures name in entries ==> e == entries[name]
      ensures name !in entries ==> e.offset == 0 && e.realSize == 0 && e.size == 0
    {
      if name in entries then entries[name] else NewArchiveEntry()
    }

    /** The archive loaders allocate their buffers with `new ui8[n]` from the
        entry's signed sizes: `realSize` for an uncompressed LOD entry, both
        `size` and `realSize` for a compressed one, `size` for a media
        entry. A negative size makes that allocation throw. */
    predicate AllocationFails(name: string)
      reads this
    {
      !source.Folder? &&
      (if source.LodArchive? then EntryOf(name).realSize < 0 || EntryOf(name).size < 0
       else EntryOf(name).size < 0)
    }

    /** The bytes `loadResource` yields for `name`, or None when it yields a
        null stream. A LOD entry of compressed size 0 is `realSize` raw bytes
        at its offset; otherwise the `size` compressed bytes at its offset are
        inflated to `realSize` bytes. Media archives copy `size` bytes at the
        offset. A folder yields the file's bytes, or None when it is empty or
        missing. Where the source's allocation throws, this is None too. */
    function Loaded(name: string): (r: Option<seq<Byte>>)
      reads this
      ensures source.LodArchive? && name in entries && entries[name].size == 0 && entries[name].realSize >= 0 ==>
                r == Some(Slice(source.archive, entries[name].offset, entries[name].realSize))
      ensures (source.SoundArchive? || source.VideoArchive?) && name in entries && entries[name].size >= 0 ==>
                r == Some(Slice(source.archive, entries[name].offset, entries[name].size))
      ensures source.LodArchive? && name in entries && entries[name].size > 0 && entries[name].realSize >= 0 ==>
                r == Some(Slice(inflate(Slice(source.archive, entries[name].offset, entries[name].size),
                                        entries[name].realSize), 0, entries[name].realSize))
      ensures !source.Folder? && name !in entries ==> r == Some([])
      ensures source.Folder? ==> (r.Some? <==> name in source.files && source.files[name] != [])
      ensures source.Folder? && r.Some? ==> r.value == source.files[name]
      ensures r.Some? && source.LodArchive? && name in entries ==> |r.value| == entries[name].realSize
      ensures !source.Folder? ==> (r.None? <==> AllocationFails(name))
    {
      if source.Folder? then
        if name in source.files && source.files[name] != [] then Some(source.files[name]) else None
      else
        var e := EntryOf(name);
        if source.LodArchive? then
          if e.realSize < 0 then None
          else if e.size == 0 then Some(Slice(source.archive, e.offset, e.realSize))
          else if e.size < 0 then None
          else Some(Slice(inflate(Slice(source.archive, e.offset, e.size), e.realSize), 0, e.realSize))
        else
          if e.size < 0 then None else Some(Slice(source.archive, e.offset, e.size))
    }

    /** `loadResource`: a fresh stream over the loaded bytes, cursor at 0, or
        null. */
    method LoadResource(name: string) returns (s: MemoryStream?)
      ensures s == null <==> Loaded(name).None?
      ensures s != null ==> fresh(s) && s.Valid() && s.data == Loaded(name).value && s.seekPos == 0
    {
      var bytes := Loaded(name);
      if bytes.None? {
        return null;
      }
      s := new MemoryStream(bytes.value, |bytes.value|);
    }
  }

  /** The existence check guarding `loadResource` as written: it asserts the
      name is ABSENT from the entry table. */
  predicate LoadAssertAsWritten(entries: map<string, ArchiveEntry>, name: string) {
    name !in entries
  }

  /** The intended check: the name has an entry. */
  predicate LoadAssert(entries: map<string, ArchiveEntry>, name: string) {
    name in entries
  }

  /** Counterexample for the inverted assertion: after an archive's
      enumeration, loading any name it registered trips the check as written,
      while the intended check holds. */
  lemma LoadAssertInverted(src: Source, entries: map<string, ArchiveEntry>, i: nat)
    requires i < RecordCount(src) && !src.Folder?
    ensures !LoadAssertAsWritten(CatalogEntries(src, entries), NameAt(src, i))
    ensures LoadAssert(CatalogEntries(src, entries), NameAt(src, i))
  {
    var pairs := CatalogPairs(src, RecordCount(src));
    InsertAllCovers(entries, pairs, i);
    assert pairs[i].0 == NameAt(src, i);
  }
}
