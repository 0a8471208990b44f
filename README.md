# vcmi resource and sprite core, modelled in Dafny

This project models three cooperating parts of the vcmi client and library.

1. **The DEF sprite container and its pixel sinks.**
   - `CDefFile` reads a DEF container's header: its type, its 256-color palette (entries 0..7 replaced by the fixed shadow colors, or by zeros for type 71) and its block catalog of frame offsets per group.
   - `loadFrame` decodes one frame, in one of the four scanline formats, into calls on a pixel sink: `init`, `load(size, bytes)`, `load(size, color)` and `endLine`.
   - Two sinks receive those calls.
     - `SDLImageLoader` copies the pixels into an 8-bit surface, row after row, `pitch` bytes apart.
     - `CompImageLoader` re-encodes them into compact segments: color runs `[color, n]` and raw blocks `[0xFF, n, bytes]`, with 1 <= n <= 255 and one offset per row.
   - `CompImage::recolorToPlayer` replaces the player band of the palette, entries 224..255.
2. **The virtual resource file system.**
   - The pieces:
     - resource identifiers, which are upper-cased and compared structurally;
     - resource locators;
     - the extension table and the name/extension split;
     - the catalogs of LOD, sound and video archives and of folders;
     - the in-memory byte stream;
     - `CFileSystemHandler`.
   - The handler keeps the loaders in order and fills the identifier -> locator-list table. It answers `getResource` with the most recent locator, or the first one when `fromBegin` is set.
   - It caches the streams it hands out as weak references, keyed by locator.
3. **The weak-reference image cache and animation loading.**
   - `GraphicsLocator` and `EGlowAnimationType`.
   - `CResourceHandler::getImage`/`loadImage` over a weak-reference cache of images.
   - `ImageBasedAnimation`, which loads every group of a container or a single one.
   - `CAnimation::setGroup`.

Modelling conventions:
- A weak reference is an explicit slot: `Absent`, `Live(obj)` or `Expired`.
- The moment the last strong owner lets go is a `Release` method.
- Byte buffers are sequences of `Byte` (0..255).
- Where the code state-changes in place, the model is a class with `modifies` clauses:
  - the stream cursor;
  - the handler's table and cache;
  - the loaders' entry tables;
  - the sinks' buffers and cursors;
  - the palette;
  - the animation's maps.
- The decoders and name functions are pure functions.
- Each class method is proved against a specification function. The properties the code promises are lemmas about those functions.

Where the code has an evident defect, the model keeps two definitions: one as written, with a lemma that exhibits the discrepancy on a concrete input, and one as intended, which the rest of the model uses (see "## Findings"). The headers and the sources come from different revisions. The model follows the `.cpp` files and takes field layouts from the headers, for example `readByte*` in the source versus `readInt*` in the header.

Files, one module each:
- `common.dfy`: bytes, little-endian reads, 32-bit wrap-around, `Option`, weak slots.
- `resource_names.dfy`: `EResType`, `ResourceIdentifier`, `ResourceLocator`.
- `memory_stream.dfy`: `CMemoryStream`.
- `resource_map.dfy`: the extension table, `adaptResourceName` and `addResourceToMap`.
- `loaders.dfy`: archive entries, the catalogs of the four loaders, `loadResource` and the decompression chunking.
- `fs_handler.dfy`: `CFileSystemHandler`.
- `def_format.dfy`: the container format and the frame's sink calls, as functions.
- `def_file.dfy`: the `CDefFile` class.
- `comp_format.dfy`: the compact segment format and what each `load` does to a row's segments.
- `comp_image.dfy`: `CompImage` and `CompImageLoader`.
- `sdl_image.dfy`: `SDLImage` and `SDLImageLoader`.
- `graphics_names.dfy`: `GraphicsLocator` and `EGlowAnimationType`.
- `animation.dfy`: `ImageBasedAnimation`, `createAnimation` and `CAnimation`.
- `resource_handler.dfy`: `CResourceHandler`.

## Model

| member | source | states |
|---|---|---|
| ResourceNames.ToUpper | lib/CFileSystemHandlerFwd.h:63 | `toupper` in the "C" locale: a lower-case ASCII letter maps to its upper-case letter (code - 32), and every other character is unchanged |
| ResourceNames.Upper | lib/CFileSystemHandlerFwd.h:62-63 | the identifier name has the input's length and holds `toupper` of each input character at the same position |
| ResourceNames.UpperIsUpper | lib/CFileSystemHandlerFwd.h:53 | identifier names are always upper case: the result has no lower-case letter, a string is unchanged exactly when it has none, and upper-casing is idempotent |
| ResourceNames.UpperAppend | lib/CFileSystemHandler.cpp:165 | upper-casing a loader prefix followed by a name equals upper-casing each part |
| ResourceNames.MakeIdentifier | lib/CFileSystemHandlerFwd.h:60-64 | the identifier keeps the type and stores the character-wise upper case of the name, of the same length |
| ResourceNames.MakeIdentifierEquality | lib/CFileSystemHandlerFwd.h:66-69 | two identifiers built from names and types are equal if and only if the upper-cased names and the types are equal, so case differences never separate two resources |
| ResourceNames.IdentifierHashConsistent | lib/CFileSystemHandlerFwd.h:71-78 | the hash combines exactly name and type, so identifiers equal under `==` hash equally |
| ResourceNames.DefaultLocator | lib/CFileSystemHandlerFwd.h:92 | the default locator has a null loader and an empty name, and it is empty |
| ResourceNames.IsEmptyIff | lib/CFileSystemHandlerFwd.h:96 | a locator is empty if and only if its loader is null or its name is "" |
| MemoryStreams.SizeMinus | lib/CFileSystemHandler.cpp:18 | `length - k` on a 64-bit `size_t`: the difference when it is non-negative, else the wrapped value 2^64 + length - k |
| MemoryStreams.Byte16AsWritten | lib/CFileSystemHandler.cpp:16-23 | `readByte16` as written: when the cursor equals `length - 1` (wrapped) it yields 0 and leaves the cursor; otherwise it yields the 16-bit value at the START of the buffer and advances by 2 |
| MemoryStreams.Byte32AsWritten | lib/CFileSystemHandler.cpp:25-32 | `readByte32` as written: the same, with `length - 3`, 4 bytes and a 32-bit value from the start of the buffer |
| MemoryStreams.Byte16 | lib/CFileSystemHandler.cpp:16-23 | intended `readByte16`: the cursor either stays or advances by 2 and never beyond the buffer, and the value fits in 16 bits |
| MemoryStreams.Byte32 | lib/CFileSystemHandler.cpp:25-32 | intended `readByte32`: the cursor either stays or advances by 4 and never beyond the buffer, and the value fits in 32 bits |
| MemoryStreams.Byte16RoundTrip | lib/CFileSystemHandler.cpp:16-23 | the intended 16-bit read returns any value encoded little-endian at the cursor, whatever precedes or follows it, and moves past it |
| MemoryStreams.Byte32RoundTrip | lib/CFileSystemHandler.cpp:25-32 | the intended 32-bit read returns any value encoded little-endian at the cursor and moves past it |
| MemoryStreams.Byte16AsWrittenDiffers | lib/CFileSystemHandler.cpp:18-22 | on the buffer [1,2,3,4] the read as written yields 0x0201 at cursor 2, where 0x0403 was meant, and it moves the cursor from 4 to 6, past the end |
| MemoryStreams.Byte32AsWrittenDiffers | lib/CFileSystemHandler.cpp:27-31 | at cursor 4 of an 8-byte buffer the read as written yields bytes 0..3, and at the end of a 4-byte buffer it moves the cursor to 8 |
| MemoryStreams.MemoryStream.constructor | lib/CFileSystemHandler.h:24 | a stream over `Length` bytes starts with the cursor at 0 and the recorded length equal to the buffer's |
| MemoryStreams.MemoryStream.ReadByte8 | lib/CFileSystemHandler.cpp:8-14 | at the end of the buffer: 0, and the cursor is unchanged; otherwise the byte at the cursor, and the cursor advances by one |
| MemoryStreams.MemoryStream.ReadByte16 | lib/CFileSystemHandler.cpp:16-23 | the method yields the value and the new cursor of `Byte16AsWritten` |
| MemoryStreams.MemoryStream.ReadByte32 | lib/CFileSystemHandler.cpp:25-32 | the method yields the value and the new cursor of `Byte32AsWritten` |
| MemoryStreams.MemoryStream.ReadInt8 | lib/CFileSystemHandler.h:37 | the header read of one byte: the byte at the cursor, and the cursor advances by one |
| MemoryStreams.MemoryStream.ReadInt32 | lib/CFileSystemHandler.h:39 | the header read of a little-endian 32-bit value at the cursor, and the cursor advances by 4 |
| MemoryStreams.MemoryStream.IncSeekPos | lib/CFileSystemHandler.h:35 | the cursor moves forward by `add` |
| ResourceMaps.ConvertFileExtToResTypeAsWritten | lib/CFileSystemHandler.cpp:467-485 | the table lookup as written (text key "TXT"): the kind of a listed extension, OTHER for any other |
| ResourceMaps.ConvertFileExtToResType | lib/CFileSystemHandler.cpp:467-485 | the lookup with the text key ".TXT": the kind of a listed extension, OTHER for any other |
| ResourceMaps.ExtensionTable | lib/CFileSystemHandler.cpp:473-484 | .DEF is ANIMATION; .BMP/.JPG/.PCX/.PNG/.TGA are GRAPHICS; .SMK/.BIK are VIDEO; .WAV is SOUND; .TXT/.JSON are TEXT. The lookup never yields ANY or SAVEGAME, and it yields OTHER if and only if the extension is not in the table |
| ResourceMaps.ConvertAgreesExceptText | lib/CFileSystemHandler.cpp:473-477 | the table as written and the corrected one agree on every extension except the text key |
| ResourceMaps.LastSep | lib/CFileSystemHandler.cpp:495 | `find_last_of("/.")`: a position holding '/' or '.' with none after it, or none when the string has no '/' or '.' |
| ResourceMaps.AdaptResourceNameAsWritten | lib/CFileSystemHandler.cpp:487-505 | as written the upper-casing writes into an empty string, so both the name and the extension come back empty for every input |
| ResourceMaps.AdaptResourceName | lib/CFileSystemHandler.cpp:487-505 | name + extension is the upper-cased input; the extension is empty or a dot followed by no '/' or '.'; when it is empty, the last '/' or '.' of the name (if any) is a '/' |
| ResourceMaps.SplitCharacterization | lib/CFileSystemHandler.cpp:495-502 | a split with those properties has an extension if and only if the last '/' or '.' is a '.', and then the name ends exactly there |
| ResourceMaps.AdaptResourceNameUnique | lib/CFileSystemHandler.cpp:495-502 | the split is determined by those properties: any name/extension pair that has them is the one computed |
| ResourceMaps.AdaptResourceNameAsWrittenLosesName | lib/CFileSystemHandler.cpp:492 | "a.def" gives ("", "") as written, where ("A", ".DEF") is meant |
| ResourceMaps.TextExtensionAsWritten | lib/CFileSystemHandler.cpp:473 | "a.txt" has the extension ".TXT", which the table as written maps to OTHER and the corrected table maps to TEXT |
| ResourceMaps.TextOnlyThroughJsonAsWritten | lib/CFileSystemHandler.cpp:473-474 | with the table as written, an extension obtained from a file name is classified TEXT only when it is ".JSON" |
| ResourceMaps.TextKeysAsWritten | lib/CFileSystemHandler.cpp:473-474 | the table as written has exactly two text keys, "TXT" and ".JSON" |
| Common.ListAt | lib/CFileSystemHandler.cpp:521 | the list stored for a key, empty when the key has none: the locator list of an identifier, and a group's frame offsets (client/UIFramework/ImageClasses.h:40-41) |
| ResourceMaps.LocalMapAfterAddAsWritten | lib/CFileSystemHandler.cpp:83-96 | the callee's copy after `addResourceToMap` as written: a new identifier gets a one-element list, and a known identifier keeps its old list because `insert` does not replace it |
| ResourceMaps.AddResourceToMapAsWritten | lib/CFileSystemHandler.cpp:80 | the caller's map after `addResourceToMap` as written: the map is passed by value, so the caller's map is the one it passed |
| ResourceMaps.AddResourceToMap | lib/CFileSystemHandler.cpp:80-97 | intended: the locator is appended to the end of the identifier's list (a new identifier gets a one-element list), the identifier becomes a key, and every other identifier keeps its list |
| ResourceMaps.AddResourceToMapAsWrittenLosesLocators | lib/CFileSystemHandler.cpp:80-97 | adding to an empty map leaves it without the identifier as written, while the intended add gives [a]; adding b to [a] keeps [a] even in the callee's copy, while the intended add gives [a, b] |
| ResourceMaps.EntryIdentifier | lib/CFileSystemHandler.cpp:99-106 | `addEntryToMap`'s identifier: the upper-cased prefix followed by the name without extension, with the kind its extension gives |
| ResourceMaps.AddAllStep | lib/CFileSystemHandler.cpp:148-169 | registering i + 1 locators is registering i and then adding the next one |
| ResourceMaps.LocatorsFor | lib/CFileSystemHandler.cpp:80-97 | the locators registered for an identifier, in registration order; there are no more of them than registrations |
| ResourceMaps.AddAllLocators | lib/CFileSystemHandler.cpp:80-97 | after a series of registrations the list for an identifier is its old list followed by the locators registered for it, in order; the identifier is present if and only if it was present before or was registered |
| ResourceMaps.LocatorsForMember | lib/CFileSystemHandler.cpp:80-97 | every locator in an identifier's list comes from a registration for that identifier |
| ResourceMaps.LocatorsForLast | lib/CFileSystemHandler.cpp:80-97 | the last registration for an identifier ends its list |
| ResourceMaps.LocatorsForFirst | lib/CFileSystemHandler.cpp:80-97 | the first registration for an identifier starts its list |
| ResourceMaps.LocatorsForNone | lib/CFileSystemHandler.cpp:80-97 | an identifier that is never registered gets no locators |
| ResourceMaps.ChooseLocator | lib/CFileSystemHandler.cpp:525-529 | the chosen locator is one of the list: the last one, or the first one when `fromBegin` |
| ResourceMaps.LaterLoaderOverrides | lib/CFileSystemHandler.cpp:520-529 | layering: when a later loader registers an identifier, the default lookup returns that loader's locator, while `fromBegin` returns the locator of the earlier loader that registered it first |
| Loaders.NewArchiveEntry | lib/CFileSystemHandler.h:141-145 | every archive entry constructor stores the name (default "") and the type (default OTHER) and zeroes offset, real size and size |
| Loaders.RecordCount | lib/CFileSystemHandler.cpp:383-387 | a video archive shorter than 48 bytes enumerates no records |
| Loaders.EntryAt | lib/CFileSystemHandler.cpp:151-159 | a LOD entry's name is the upper-cased file name without its extension, its type the extension's kind, and its offset, real size and size the record's fields as signed 32-bit values; a sound entry has the record's offset and size, a video entry the record's offset and the size `VideoSize` gives (the distance to the next offset); both keep the file name, have type OTHER and real size 0 |
| Loaders.InsertEntry | lib/CFileSystemHandler.cpp:162 | `insert` into the entry table: the key becomes present, an existing key keeps its entry, a new key gets the new entry, and every other key is unchanged |
| Loaders.InsertAllCovers | lib/CFileSystemHandler.cpp:148-169 | every inserted name is in the table afterwards |
| Loaders.InsertAllAbsent | lib/CFileSystemHandler.cpp:148-169 | a name that was not present and is never inserted stays absent |
| Loaders.InsertAllFirstWins | lib/CFileSystemHandler.cpp:162 | for duplicate names, the first record's entry stays and later duplicates do not replace it |
| Loaders.CatalogPairs | lib/CFileSystemHandler.cpp:148-162 | the first n records of an archive insert, in order, the pairs (file name, entry built from the record) |
| Loaders.Registrations | lib/CFileSystemHandler.cpp:164-168 | the first n records register, in order, one locator each, naming this loader and the record's own file name |
| Loaders.InsertAllStep | lib/CFileSystemHandler.cpp:162 | inserting i + 1 pairs is inserting i and then the next one |
| Loaders.CatalogPairsStep | lib/CFileSystemHandler.cpp:148-162 | one more record is one more `insert` of its name and entry |
| Loaders.RegistrationsStep | lib/CFileSystemHandler.cpp:164-168 | one more record is one more `addResourceToMap` of its identifier and locator |
| Loaders.EnumerationStep | lib/CFileSystemHandler.cpp:353-365 | one iteration of any loader's loop inserts the record's entry (archives only) and registers its locator |
| Loaders.CatalogEntriesFirstWins | lib/CFileSystemHandler.cpp:405-425 | after the enumeration, every enumerated name is in the entry table, and a name that was new holds the entry of the first record carrying it |
| Loaders.VideoSizesTile | lib/CFileSystemHandler.cpp:413-420 | with non-decreasing offsets inside a file under 2^31 bytes, every inferred video size is non-negative, and the sizes of the first n videos add up to the distance from the first offset to the (n+1)-th, or to the end of the file for all of them |
| Loaders.ChunkPlan | lib/CFileSystemHandler.cpp:238-278 | the input pieces fed to the inflater: piece k starts at k * 50000, holds 1 to 50000 bytes inside the input, and together they cover the input; there are none if and only if the input is empty |
| Loaders.ResourceLoader.constructor | lib/CFileSystemHandler.h:90-92 | a loader stores its address, its prefix (which ends with '/'), its source and its inflater, with an empty entry table |
| Loaders.ResourceLoader.InsertEntriesIntoResourcesMap | lib/CFileSystemHandler.cpp:108-173 | enumerating the records fills the entry table with the catalog entries, first record winning, and registers every record's locator in order in the table |
| Loaders.ResourceLoader.Loaded | lib/CFileSystemHandler.cpp:175-219 | the bytes `loadResource` yields. A LOD entry of compressed size 0 is `realSize` bytes at its offset; a compressed one is the inflater's output over its `size` bytes at its offset, cut to `realSize`. A media entry is `size` bytes at its offset. A name without an entry reads the default all-zero entry, giving an empty buffer. A folder yields the file's bytes, and nothing for a missing or empty file. An archive yields nothing exactly when one of its allocations gets a negative size. A LOD result always has `realSize` bytes |
| Loaders.ResourceLoader.EntryOf | lib/CFileSystemHandler.cpp:179 | `entries[resourceName]` reads the name's entry, or a default entry with offset, real size and size 0 |
| Loaders.ResourceLoader.LoadResource | lib/CFileSystemHandler.cpp:428-453 | the stream is null exactly when nothing is loaded; otherwise it is a fresh, valid stream over the loaded bytes with its cursor at 0 |
| Loaders.LoadAssertInverted | lib/CFileSystemHandler.cpp:177 | after an archive's enumeration, every registered name fails the assertion as written (`find == end`), while the intended check (the name has an entry) holds |
| FileSystemHandlers.AddAllWellFormed | lib/CFileSystemHandler.cpp:80-97 | registrations whose locators name known loaders keep every list non-empty and every locator pointing to a known loader |
| FileSystemHandlers.IdsOfAppend | lib/CFileSystemHandler.cpp:463 | appending a new loader adds its address and keeps the loaders distinct |
| FileSystemHandlers.RegistrationsWellFormed | lib/CFileSystemHandler.cpp:461-465 | registering a loader's records keeps the table well formed for a set of loaders that includes it |
| FileSystemHandlers.FindLoader | lib/CFileSystemHandler.cpp:552 | the position of the loader a locator names, or none exactly when no loader has that address |
| FileSystemHandlers.SlotFor | lib/CFileSystemHandler.cpp:553 | the weak reference to a loaded stream is live and points to it; for a null stream it is expired from the start |
| FileSystemHandlers.CacheInsertAsWritten | lib/CFileSystemHandler.cpp:554 | the cache `insert` as written: a locator already present keeps its slot, and a new one gets the reference |
| FileSystemHandlers.CacheInsert | lib/CFileSystemHandler.cpp:550-556 | intended: the locator's slot becomes the new reference, and every other locator keeps its slot |
| FileSystemHandlers.CacheInsertAsWrittenKeepsExpired | lib/CFileSystemHandler.cpp:554 | once a locator's reference has expired, inserting the reloaded stream leaves it expired as written, while the intended insert makes it live |
| FileSystemHandlers.CacheInsertAgreesOnNewKey | lib/CFileSystemHandler.cpp:554 | on a locator not yet cached, the insert as written and the intended one agree |
| FileSystemHandlers.Lookup | lib/CFileSystemHandler.cpp:512-529 | nothing if and only if the identifier is not registered; otherwise a locator of its list, the last one, or the first when `fromBegin` |
| FileSystemHandlers.FileSystemHandler.constructor | lib/CFileSystemHandler.h:214-227 | a new handler has no loaders, no resources and nothing cached |
| FileSystemHandlers.FileSystemHandler.AddHandler | lib/CFileSystemHandler.cpp:461-465 | the loader is appended to the loader list, its catalog fills its entry table, its records are registered in the table in enumeration order, and the cache is untouched |
| FileSystemHandlers.FileSystemHandler.LoaderOf | lib/CFileSystemHandler.cpp:552 | the loader a locator names is one of the handler's loaders, with that address |
| FileSystemHandlers.FileSystemHandler.AddResource | lib/CFileSystemHandler.cpp:550-556 | the stream is what the locator's loader loads (null exactly when it loads nothing), and the cache then holds the reference for the locator; nothing else changes |
| FileSystemHandlers.FileSystemHandler.GetResource | lib/CFileSystemHandler.cpp:508-548 | null, with no change, for an unregistered identifier. Otherwise the locator chosen is the last one, or the first when `fromBegin`. A live reference for it is returned without loading or change; an absent or expired one is reloaded through `addResource` and cached |
| FileSystemHandlers.FileSystemHandler.Release | lib/CFileSystemHandler.cpp:538-539 | the last owner of a cached stream letting go makes its reference expired; nothing else changes |
| DefFormat.FileColor | client/UIFramework/ImageClasses.cpp:61-67 | palette entry i read from the file is the RGB triple at 16 + 3i bytes after the header start, with alpha 255 |
| DefFormat.PaletteEntry | client/UIFramework/ImageClasses.cpp:61-78 | entries 8..255 are the file's colors; entries 0..7 are all zero for type 71 and the fixed shadow/selection colors otherwise |
| DefFormat.Palette | client/UIFramework/ImageClasses.cpp:53-78 | the palette has 256 entries, each as above, with the container type taken from the header's first field |
| DefFormat.PaletteAlphas | client/UIFramework/ImageClasses.cpp:38-78 | every file color is opaque and entries 0..7 are black and not opaque; with shadows, an entry is fully transparent if and only if it is 0 or 5 |
| DefFormat.Offsets | client/UIFramework/ImageClasses.cpp:91-95 | n offsets are the n consecutive little-endian 32-bit values at the cursor |
| DefFormat.BlockStep | client/UIFramework/ImageClasses.cpp:82-95 | one block moves the cursor past its 16-byte header, 13n name bytes and 4n offset bytes, and appends its n offsets in file order to its group's list; a block with no entries leaves the table unchanged, and other groups are untouched |
| DefFormat.Entries | client/UIFramework/ImageClasses.cpp:259-267 | `getEntries` has exactly the groups of the offset table, each mapped to the length of its offset list |
| DefFormat.EntriesBlockStep | client/UIFramework/ImageClasses.cpp:80-96 | reading a block adds its entry count to its group's frame count (creating the group when the count is positive) and leaves every other group's count alone |
| DefFormat.ReadSpriteDef | client/UIFramework/ImageClasses.cpp:120-130 | the frame header's format, sizes and full sizes are the little-endian fields at 4, 8, 12, 16 and 20; the margins at 24 and 28 are read as signed 32-bit values |
| DefFormat.OpcodeSegmentLoads | client/UIFramework/ImageClasses.cpp:164-180 | a format 1 segment is one load (raw for type 0xFF, otherwise a run of that color) of 1 to 256 pixels, and the cursor moves forward |
| DefFormat.PackedSegmentLoads | client/UIFramework/ImageClasses.cpp:195-212 | a format 2/3 segment is one load (raw for code 7, otherwise a run of that code) of 1 to 32 pixels, and the cursor moves forward |
| DefFormat.DecoderAdvances | client/UIFramework/ImageClasses.cpp:164-242 | every segment decoder of a format yields loads of 1 to the format's longest segment |
| DefFormat.FrameEventsAsWritten | client/UIFramework/ImageClasses.cpp:99-252 | `loadFrame` as written (formats 0 and 2 pass one data byte as a color) starts with `init` |
| DefFormat.FrameEvents | client/UIFramework/ImageClasses.cpp:99-252 | `loadFrame` with raw data passed as raw data starts with `init` |
| DefFormat.RowStopsAtWidth | client/UIFramework/ImageClasses.cpp:164-181 | a row's segment loop makes only loads of 1 to max pixels, none when the row is already full, and stops at the first segment that brings the row to at least the width |
| DefFormat.CompressedRow | client/UIFramework/ImageClasses.cpp:158-245 | a compressed row is empty if and only if the width is 0; otherwise it reaches the width, and without its last segment it stays below it |
| DefFormat.RowsAreLoads | client/UIFramework/ImageClasses.cpp:139-247 | every row of a frame in formats 0..3 is made of load calls only |
| DefFormat.RowsFromShape | client/UIFramework/ImageClasses.cpp:144-245 | the row loop makes exactly one `endLine` per row, and no `init` |
| DefFormat.FrameShape | client/UIFramework/ImageClasses.cpp:135-250 | `init` is called exactly once, first, with the header's size, margins and full size and the container palette. Formats 0..3 then make exactly `height` `endLine` calls; any other format makes no further call |
| DefFormat.Concat | client/UIFramework/ImageClasses.h:92-96 | the pixels of a sequence of loads number the sum of their sizes |
| DefFormat.RowsOfRow | client/UIFramework/ImageClasses.h:92-97 | a row's loads followed by `endLine` make one pixel row of the pending pixels and their pixels |
| DefFormat.RowsFromRows | client/UIFramework/ImageClasses.cpp:144-245 | the rows of a frame decode to the first row's pixels followed by the rows after it |
| DefFormat.RowsOfSlices | client/UIFramework/ImageClasses.cpp:144-149 | rows that each consume `width` input bytes and load exactly those bytes decode, row k, to the `width` bytes at `cur + k * width` |
| DefFormat.RowsOfBounded | client/UIFramework/ImageClasses.cpp:158-245 | rows whose pixel counts lie in [lo, hi) decode to rows whose lengths lie there |
| DefFormat.Format0Row | client/UIFramework/ImageClasses.cpp:144-148 | a corrected format 0 row is one raw load of the `width` bytes at the cursor, and the next row follows them |
| DefFormat.Format0RowsAreSlices | client/UIFramework/ImageClasses.cpp:144-148 | every corrected format 0 row is a load of the `width` bytes at its cursor |
| DefFormat.Format0Rows | client/UIFramework/ImageClasses.cpp:141-151 | a corrected format 0 frame has `height` rows, and row k is the k-th `width`-byte slice of the pixel data |
| DefFormat.CompressedRowWidths | client/UIFramework/ImageClasses.cpp:158-245 | every corrected compressed row covers the width and overshoots it by less than one segment |
| DefFormat.CompressedRows | client/UIFramework/ImageClasses.cpp:152-247 | a corrected compressed frame has `height` rows, each covering the width and overshooting it by less than one segment |
| DefFormat.FrameBody | client/UIFramework/ImageClasses.cpp:139-247 | after `init`, a supported frame makes the calls of its rows from the first row's cursor (format 2: one 16-bit offset at the start of the pixel data) |
| DefFormat.FrameRows | client/UIFramework/ImageClasses.cpp:139-251 | a decoded frame in formats 0..3 has `height` rows. Format 0 rows are the successive `width`-byte slices of the pixel data. Format 1..3 rows cover the width with less than one segment (256 or 32 pixels) of overshoot |
| DefFormat.Format0RawAsColorAsWritten | client/UIFramework/ImageClasses.cpp:146 | a 2 x 1 uncompressed frame with pixels p, q decodes as [p, p] as written and as [p, q] corrected |
| DefFormat.Format2RawAsColorAsWritten | client/UIFramework/ImageClasses.cpp:204 | a 2 x 1 format 2 frame whose row is one raw segment p, q decodes as [p, p] as written and as [p, q] corrected |
| DefFiles.NextOpcodeSegment | client/UIFramework/ImageClasses.cpp:166-179 | reading a format 1 segment yields the segment's load, length and next cursor |
| DefFiles.NextPackedSegment | client/UIFramework/ImageClasses.cpp:197-211 | reading a format 2/3 segment yields the segment's load, length and next cursor |
| DefFiles.DecodeRow | client/UIFramework/ImageClasses.cpp:162-181 | the segment loop of a row makes the calls of the row, and it ends at the cursor after the row |
| DefFiles.DecodeRowAt | client/UIFramework/ImageClasses.cpp:144-245 | row i of a supported frame, from its start position, with raw data passed as raw data |
| DefFiles.DecodeRows | client/UIFramework/ImageClasses.cpp:144-245 | the row loop makes every row's calls, each row closed by `endLine` |
| DefFiles.ReadPalette | client/UIFramework/ImageClasses.cpp:61-78 | the palette loop reads 768 bytes and builds the container's palette |
| DefFiles.ReadBlock | client/UIFramework/ImageClasses.cpp:82-95 | reading a block updates the table and the cursor as the block step states |
| DefFiles.ReadOffsets | client/UIFramework/ImageClasses.cpp:91-95 | the offsets loop appends n offsets to the group, in file order, and advances by 4n |
| DefFiles.ReadBlocks | client/UIFramework/ImageClasses.cpp:80-96 | the block loop reads `totalBlocks` blocks into an empty table |
| DefFiles.DefFile.constructor | client/UIFramework/ImageClasses.cpp:35-97 | the container's palette is its header palette, and its offset table is what its blocks give |
| DefFiles.DefFile.LoadFrame | client/UIFramework/ImageClasses.cpp:99-252 | the calls the frame makes on a sink are the frame's decoded calls, for an existing group and frame |
| DefFiles.DefFile.GetEntries | client/UIFramework/ImageClasses.cpp:259-267 | each group of the container with its number of frames |
| CompFormat.SegmentBytes | client/UIFramework/ImageClasses.h:143-154 | a run is [color, size]; a raw segment is 0xFF, its length, then its bytes |
| CompFormat.ParseEncode | client/UIFramework/ImageClasses.h:143-154 | the segment format is lossless: parsing the bytes of well-formed segments gives the segments back |
| CompFormat.NewRuns | client/UIFramework/ImageClasses.cpp:547-553 | the run loop keeps the row and appends runs of the color that stand for exactly `size` more pixels, in well-formed segments |
| CompFormat.NewRunsShape | client/UIFramework/ImageClasses.cpp:547-553 | the runs created are size / 255 runs of 255 followed by one run of the remainder when there is one |
| CompFormat.WithLastRunPixels | client/UIFramework/ImageClasses.cpp:539-545 | growing the last run adds pixels of its color and touches no raw segment |
| CompFormat.AddColorFacts | client/UIFramework/ImageClasses.cpp:538-553 | the color load keeps the row well formed, leaves its raw segments alone and stores exactly `size` pixels of the color |
| CompFormat.MergedRunFacts | client/UIFramework/ImageClasses.cpp:539-553 | the merge branch keeps the row well formed, and the grown run plus the new runs store exactly the pixels loaded |
| CompFormat.RunsOfStep | client/UIFramework/ImageClasses.cpp:547-553 | more than 255 pixels give a run of 255 and the runs of the rest; 1 to 255 give one run |
| CompFormat.AddColorAsWrittenLosesPixels | client/UIFramework/ImageClasses.cpp:542-544 | continuing a run of n < 255 pixels as written leaves the row n + 1 pixels short, while the intended merge stores all of them |
| CompFormat.SameRun | client/UIFramework/ImageClasses.cpp:465-467 | the run of equal pixels at the start ends at the first different pixel or at the end of the data |
| CompFormat.RawRunAsWritten | client/UIFramework/ImageClasses.cpp:485-501 | the raw block as written always takes at least one more pixel when one remains |
| CompFormat.RawRun | client/UIFramework/ImageClasses.cpp:485-501 | intended: the raw block holds only pixels of the first pixel's type |
| CompFormat.RawRunAgrees | client/UIFramework/ImageClasses.cpp:491-500 | on pixels of one type the selection as written and the intended one agree |
| CompFormat.RawRunAsWrittenMixesTypes | client/UIFramework/ImageClasses.cpp:493-500 | as written, a visible pixel followed by a transparent one forms a raw block of two pixels of different types; the intended selection stops after the first |
| CompFormat.RawBlocks | client/UIFramework/ImageClasses.cpp:515-521 | the raw entries created stand for exactly the pixels left, in well-formed raw segments |
| CompFormat.RawBlocksFrom | client/UIFramework/ImageClasses.cpp:434-444 | every pixel of a raw entry is a pixel of the data it was copied from |
| CompFormat.AppendRawPixels | client/UIFramework/ImageClasses.cpp:504-521 | storing a raw block stores exactly its pixels, in well-formed segments |
| CompFormat.MergeRawPixels | client/UIFramework/ImageClasses.cpp:505-521 | growing the raw entry and adding new entries stores exactly the pixels of the block |
| CompFormat.AppendRawHomogeneous | client/UIFramework/ImageClasses.h:149 | adding a block of one type keeps opaque and semi-transparent data in separate raw segments |
| CompFormat.AddRaw | client/UIFramework/ImageClasses.cpp:455-523 | `load(size, data)` keeps the row well formed |
| CompFormat.AddRawUnfold | client/UIFramework/ImageClasses.cpp:457-521 | each step takes a run of two or more equal pixels other than 0xFF as color runs, and otherwise a single-type raw block |
| CompFormat.AddRawPixels | client/UIFramework/ImageClasses.cpp:455-523 | `load(size, data)` stores exactly the loaded pixels after those of the row, and never mixes pixel types in a raw segment |
| CompFormat.AddFillFacts | client/UIFramework/ImageClasses.cpp:525-554 | `load(size, color)` stores exactly `size` pixels of the color, in well-formed segments, without mixing pixel types |
| CompImages.RowOffsets | client/UIFramework/ImageClasses.cpp:418-419 | one offset per finished row plus the first, which is 0 |
| CompImages.RowOffsetsAt | client/UIFramework/ImageClasses.cpp:556-561 | row k starts right after the bytes of the rows before it, so the next offset is never smaller |
| CompImages.RowOffsetsSorted | client/UIFramework/ImageClasses.cpp:556-561 | the row offsets never decrease |
| CompImages.OffsetsBetween | client/UIFramework/ImageClasses.cpp:556-561 | row i starts no later than any row j after it |
| CompImages.CompImage.RecolorToPlayer | client/UIFramework/ImageClasses.cpp:781-802 | the palette becomes the old palette with entries 224..255 replaced by the player's (or the neutral) band |
| CompImages.PlayerBand | client/UIFramework/ImageClasses.cpp:783-793 | a band exists if and only if the player is below the limit, 255 or -1: player p's 32 colors, or the neutral ones for 255 and -1 |
| CompImages.Recolored | client/UIFramework/ImageClasses.cpp:795-801 | entries 0..223 are unchanged and entries 224..255 are the band |
| CompImages.RecolorLastWins | client/UIFramework/ImageClasses.cpp:795-801 | recoloring twice is recoloring once with the second band |
| CompImages.CopyPalette | client/UIFramework/ImageClasses.cpp:411-413 | the image's palette is a fresh copy of the 256 colors |
| CompImages.CompImageLoader.constructor | client/UIFramework/ImageClasses.cpp:399-403 | the loader starts at position 0 with no entry on line 0 |
| CompImages.CompImageLoader.Init | client/UIFramework/ImageClasses.cpp:405-422 | margins and sizes are recorded. For a non-empty sprite: a fresh palette copy, a buffer of width x height x 3 bytes, height + 1 row offsets (the first 0), and nothing stored yet. For an empty sprite nothing is allocated |
| CompImages.CompImageLoader.NewColorEntry | client/UIFramework/ImageClasses.cpp:424-432 | a run [color, size] is appended to the open row and becomes the entry; position moves by 2 |
| CompImages.CompImageLoader.EntrySize | client/UIFramework/ImageClasses.cpp:507 | `entry[1]` is the length of the open row's last segment |
| CompImages.CompImageLoader.EntryHasRun | client/UIFramework/ImageClasses.cpp:539 | `entry && entry[0] == color` holds exactly when the open row ends in a run of that color |
| CompImages.CompImageLoader.TypeOfColor | client/UIFramework/ImageClasses.cpp:446-453 | `typeOf` is 0 for color 0, 1 for a color that is not opaque in the palette, and 2 otherwise |
| CompImages.CompImageLoader.CopyPixels | client/UIFramework/ImageClasses.cpp:441 | `memcpy` writes the first n pixels after the first `at` bytes and leaves those bytes alone |
| CompImages.CompImageLoader.NewRawEntry | client/UIFramework/ImageClasses.cpp:434-444 | a raw segment of the first `size` pixels is appended to the open row and becomes the entry; position moves by 2 + size |
| CompImages.CompImageLoader.GrowRunEntry | client/UIFramework/ImageClasses.cpp:539-545 | the intended merge: the run entry takes min(size, 255 - its length) more pixels, and the count taken is returned |
| CompImages.CompImageLoader.NewColorEntries | client/UIFramework/ImageClasses.cpp:547-553 | the loop appends the runs for `size` pixels, using at most 3 bytes per pixel |
| CompImages.CompImageLoader.LoadRuns | client/UIFramework/ImageClasses.cpp:538-553 | the color load of a color other than 0xFF leaves the open row as the intended merge defines it |
| CompImages.CompImageLoader.RawBlockLength | client/UIFramework/ImageClasses.cpp:485-501 | the selection loop computes the intended single-type raw block length |
| CompImages.CompImageLoader.GrowRawEntry | client/UIFramework/ImageClasses.cpp:505-513 | the raw entry takes min(block, 255 - its length) pixels of the block, which are copied after it |
| CompImages.CompImageLoader.NewRawEntries | client/UIFramework/ImageClasses.cpp:515-521 | the loop appends the raw entries for the pixels left |
| CompImages.CompImageLoader.EntryTakesRaw | client/UIFramework/ImageClasses.cpp:505 | the test holds exactly when the open row ends in a raw segment of the block's type |
| CompImages.CompImageLoader.StoreRaw | client/UIFramework/ImageClasses.cpp:502-521 | a single-type block is merged into a raw entry of its type, and the rest goes into new raw entries |
| CompImages.CompImageLoader.LoadRaw | client/UIFramework/ImageClasses.cpp:455-523 | `load(size, data)` leaves the open row as `AddRaw` defines it, within 3 bytes per pixel, with the bytes, the entry and the row offsets in step |
| CompImages.CompImageLoader.LoadColor | client/UIFramework/ImageClasses.cpp:525-554 | `load(size, color)` leaves the open row as `AddFill` defines it: nothing for size 0, raw 0xFF pixels for 0xFF, runs otherwise |
| CompImages.CompImageLoader.EndLine | client/UIFramework/ImageClasses.cpp:556-562 | the open row joins the finished rows, the next row offset is the current position, and the entry is cleared, so no segment spans two rows |
| CompImages.RunsAfterMerge | client/UIFramework/ImageClasses.cpp:539-553 | the merge followed by the run loop is the intended color load |
| CompImages.SameRunLength | client/UIFramework/ImageClasses.cpp:465-467 | the counting loop finds the run of equal pixels at the start |
| CompImages.RawAfterMerge | client/UIFramework/ImageClasses.cpp:505-521 | the raw merge followed by the raw entry loop is the intended raw store |
| CompImages.RawBlocksStep | client/UIFramework/ImageClasses.cpp:515-521 | one step of the raw entry loop: a block of 255 while more remain, then the rest |
| CompImages.NothingStored | client/UIFramework/ImageClasses.cpp:418-420 | before any load: no bytes, no entry, and row 0 starts at 0 |
| CompImages.RowEnded | client/UIFramework/ImageClasses.cpp:556-561 | ending a row keeps the bytes, closes the row and records its end as the next row's offset |
| CompImages.EntryAt | client/UIFramework/ImageClasses.cpp:428-430 | the entry is the open row's last segment: first byte its color or 0xFF, second its size, and for raw data the first pixel follows |
| CompImages.StoredRun | client/UIFramework/ImageClasses.cpp:428-431 | writing a run's two bytes keeps the buffer in step with the row |
| CompImages.StoredRaw | client/UIFramework/ImageClasses.cpp:437-442 | writing a raw segment's bytes keeps the buffer in step with the row |
| CompImages.StoredGrowRun | client/UIFramework/ImageClasses.cpp:541-544 | growing the run entry changes only its length byte |
| CompImages.StoredGrowRaw | client/UIFramework/ImageClasses.cpp:507-512 | growing the raw entry changes its length byte and appends the pixels |
| SdlImages.Blit | client/UIFramework/ImageClasses.cpp:291 | writing data at `at` leaves the bytes before and after it unchanged and holds the data in between |
| SdlImages.BlitThenBlit | client/UIFramework/ImageClasses.cpp:287-303 | two loads in a row write their pixels one after the other |
| SdlImages.SDLImageLoader.constructor | client/UIFramework/ImageClasses.cpp:269-271 | both cursors start at 0, with nothing loaded |
| SdlImages.SDLImageLoader.Init | client/UIFramework/ImageClasses.cpp:273-285 | a fresh surface of `height` rows of `pitch` bytes, with the margins, full size and palette, and both cursors at its first byte |
| SdlImages.SDLImageLoader.LoadRaw | client/UIFramework/ImageClasses.cpp:287-294 | the pixels are copied at the write position, which moves past them; the row holds them after its earlier pixels |
| SdlImages.SDLImageLoader.LoadColor | client/UIFramework/ImageClasses.cpp:296-303 | `size` pixels of the color are written at the position, which moves past them |
| SdlImages.SDLImageLoader.Write | client/UIFramework/ImageClasses.cpp:291 | the copy loop writes the data over the surface from `at` on |
| SdlImages.SDLImageLoader.EndLine | client/UIFramework/ImageClasses.cpp:305-309 | the next row starts `pitch` bytes after the current one, and writing resumes there |
| SdlImages.Advanced | client/UIFramework/ImageClasses.cpp:291-292 | after a load, the current row holds its old pixels followed by the new ones |
| GraphicsNames.GlowOrdinal | client/UIFramework/ImageClassesFwd.h:29-37 | the enumerator values are below 3 |
| GraphicsNames.GlowOrdinalBijective | client/UIFramework/ImageClassesFwd.h:29-37 | there are exactly three glow types, NONE, YELLOW and BLUE, with the values 0, 1 and 2, one each |
| GraphicsNames.DefaultGraphicsLocator | client/UIFramework/ImageClassesFwd.h:54 | the default locator is an empty resource locator with frame 0 and group 0 |
| GraphicsNames.MakeGraphicsLocator | client/UIFramework/ImageClassesFwd.h:55-56 | it stores the loader and the name, with frame 0 and group 0; it is empty if and only if the loader is null or the name is "" |
| GraphicsNames.SameGraphicsIff | client/UIFramework/ImageClassesFwd.h:58-62 | `==` holds if and only if loader, name, frame and group are all equal; keys differing only in frame or group are different |
| GraphicsNames.GraphicsHashConsistent | client/UIFramework/ImageClassesFwd.h:64-73 | the hash combines the same four fields, so keys equal under `==` hash equally |
| Animations.SpritesOfStep | client/UIFramework/AnimationClasses.cpp:40-42 | finishing one more group adds its frames when it has any |
| Animations.SpriteAt | client/UIFramework/AnimationClasses.cpp:57-59 | a sprite exists for (frame, group) if and only if both are in `images`, and it is the stored one |
| Animations.AllSpritesExactly | client/UIFramework/AnimationClasses.cpp:40-42 | after loading everything, exactly one sprite exists for each (g, f) with f < entries[g], and it is that frame's sprite |
| Animations.GroupSpritesExactly | client/UIFramework/AnimationClasses.cpp:50-52 | after loading one group, the only sprites are that group's frames below its count, and none when the group is absent |
| Animations.GroupIsRestriction | client/UIFramework/AnimationClasses.cpp:45-53 | loading one group gives, for that group, exactly what loading every group gives |
| Animations.ImageBasedAnimation.constructor | client/UIFramework/AnimationClasses.h:40 | a new animation has `loadedGroup` NO_GROUP_LOADED, no entries and no sprites |
| Animations.ImageBasedAnimation.GetEntries | client/UIFramework/AnimationClasses.cpp:30-33 | the stored group -> frame-count map, unchanged |
| Animations.ImageBasedAnimation.LoadAll | client/UIFramework/AnimationClasses.cpp:35-43 | the sprites are cleared, the frame counts come from the container, and every frame of every group gets its sprite |
| Animations.ImageBasedAnimation.LoadGroup | client/UIFramework/AnimationClasses.cpp:45-53 | the sprites are cleared, the frame counts come from the container, and only the given group gets its sprites, when the container has it |
| Animations.ImageBasedAnimation.LoadFrames | client/UIFramework/AnimationClasses.cpp:41-42 | the frame loop of one group stores a sprite for each frame below the count, creating the inner map on first use |
| Animations.ImageBasedAnimation.Draw | client/UIFramework/AnimationClasses.cpp:55-62 | the sprite drawn for (frame, group), or nothing when either is missing |
| Animations.CreateAnimation | client/UIFramework/AnimationClasses.cpp:8-28 | a new animation with the container's entries and `loadedGroup` NO_GROUP_LOADED, holding every group for the default argument `size_t(-1)` and only the given group otherwise |
| Animations.CAnimation.constructor | client/UIFramework/AnimationClasses.cpp:64-68 | group 0, frame 0, and then `setGroup(0)` |
| Animations.CAnimation.OfGroup | client/UIFramework/AnimationClasses.cpp:76-80 | the given group, frame 0, and then `setGroup(group)` |
| Animations.CAnimation.SetGroup | client/UIFramework/AnimationClasses.cpp:82-96 | `repeat` is always stored. When the group exists, the frame count becomes its count and the clock restarts; otherwise both keep their values. The current group and frame are unchanged |
| ResourceHandlers.Decide | client/CResourceHandler.cpp:8-50 | not found if and only if the identifier is unregistered. Otherwise the cached image if and only if the chosen locator's reference is live; else a load of that locator |
| ResourceHandlers.RecordAsWrittenReloads | client/CResourceHandler.cpp:52-57 | after a load, the cache as written still decides to load again on the next request for the same identifier, while recording the load would serve the image just loaded |
| ResourceHandlers.RecordKeepsOthers | client/CResourceHandler.cpp:34-49 | recording a load changes the decision only for requests that choose the loaded locator |
| ResourceHandlers.ResourceHandler.LoadImage | client/CResourceHandler.cpp:52-57 | a fresh image made from the stream `getResource` returns for the identifier, with the extension given |
| ResourceHandlers.ResourceHandler.GetImageAsWritten | client/CResourceHandler.cpp:8-57 | null for an unregistered identifier. The cached image when the chosen locator's reference is live. Otherwise a fresh image with the extension of the locator's name. The image cache never changes |
| ResourceHandlers.ResourceHandler.GetImage | client/CResourceHandler.cpp:8-57 | the same decision as written, except that a freshly loaded image becomes the live entry of its locator; after any non-null answer, the same request is served from the cache |
| ResourceHandlers.ResourceHandler.Release | client/CResourceHandler.cpp:40-41 | the last owner of a cached image letting go makes its reference expired; nothing else changes |

## Left out

- File and directory I/O are not modelled: `ifstream` reads, `CMemoryStream(filePath)`, `writeToFile` and the recursive directory walk. Archive catalogs are given as decoded record sequences, with the archive bytes. A folder is given as the relative paths the walk produces and the bytes readable under each name.
- zlib inflation in `decompressFile` is the loader's `inflate` parameter; only its chunking of the input is modelled (`Loaders.ChunkPlan`). gzip unpacking is not part of this model.
- Loaders.ChunkPlan: the loop also stops when the inflater reports the end of the stream, and inflater errors abort it; neither is modelled.
- The loaders' mutex is not modelled (concurrency).
- SDL calls are not modelled: surface creation, `SDL_SetColors`, locking, `blitSurface` and `draw`. The surface's pitch is a parameter of `SdlImages.SDLImageLoader.Init`.
- `CompImage::draw`, `blitBlockWithBpp`, `blitBlock` are not modelled, and neither are the `assert(0)` stubs (`setGlowAnimation`, `rotate`, `SDLImage::recolorToPlayer`).
- `CAnimation::update` and `CAnimation::draw` are not modelled: they are floating-point time arithmetic and rendering.
- `lib/CStopWatch.h` (wall clock) is not part of this model.
- Reference counting is not modelled: a weak reference is an explicit `Absent`/`Live`/`Expired` slot, and expiry happens through the `Release` methods.
- Reads outside a buffer are undefined behaviour in the source. Here they read as 0, which applies to the frame decoder, the header reads and the archive reads.
- MemoryStreams.MemoryStream.ReadInt8: the `readInt*` bodies used by the header parser are not in the source shown. They are modelled as little-endian reads at the cursor that always advance, with bytes past the end reading as 0.
- 32-bit width is not modelled everywhere. The cursors, `currentOffset`, the frame header's unsigned fields and the archive entry fields other than the video sizes are unbounded integers. The signed margins and `SizeMinus` do model their widths: the margins are read as signed 32-bit values and both sinks record them as signed integers.
- CompImages.CompImageLoader.LoadRaw: the buffer-room precondition (3 bytes per pixel left) is stated as a requirement rather than derived from the sprite size, and likewise for `LoadColor` and `EndLine`.
- CompImages.CompImageLoader.LoadRaw: that no raw segment mixes pixel types is proved about the segment functions (`CompFormat.AddRawPixels`, `CompFormat.AddFillFacts`), not kept in the class invariant.
- The global player and neutral palettes and `PLAYER_LIMIT` are parameters of `CompImages.CompImage.RecolorToPlayer`.
- CompImages.CompImage.RecolorToPlayer: the `assert(0)` for an invalid player is a precondition.
- Animations.CAnimation.constructor: the source leaves `frameCount` and `currentTime` uninitialised when the group is missing; here they start at 0.
- The constructor `CAnimation(identifier)` is not modelled separately: it is `CAnimation(animation)` applied to the animation the resource handler returns, and `getAnimation` is not part of this model.
- `IImage::createSpriteFromDEF` yields a `Sprite(frame, group)` value. `IImage::createInstance` yields an `Image` holding the stream and the extension. `CFileInfo::getExtension` is the `extensionOf` parameter of `GetImage`.
- `loadedGroup` is never set by `load` in the source, and the model keeps it unchanged.
- The element hashes of `boost::hash_combine` are parameters of the hash functions.
- Loaders.ResourceLoader.Loaded: a LOD read past the end of the archive reads zeros, and a failed decompression still yields `realSize` bytes, as the inflater parameter gives them.
- Loaders.ResourceLoader.Loaded: a negative `size` or `realSize` (a record field of 2^31 or more, or a video whose next offset is smaller) makes `new ui8[n]` throw, with the loader's mutex still locked (lib/CFileSystemHandler.cpp:180, 191, 202, 226, 444). The model gives a null stream (None) there instead; `AllocationFails` names exactly these cases. The exception and the locked mutex are not modelled.
- The LOD catalog's check that the file reaches offset 0x5c, and the media loader's check that the archive opens, are I/O outcomes and are not modelled.

## Findings

| source | as written | input that shows it | evidently intended | confidence | as-written member | corrected member |
|---|---|---|---|---|---|---|
| lib/CFileSystemHandler.cpp:16-23 | `readByte16` reads from the start of the buffer, and its end check uses `== length - 1` | buffer [1,2,3,4] at cursor 2 yields 0x0201; at cursor 4 the cursor moves to 6 | the value at the cursor, refusing when fewer than 2 bytes remain | not executed | MemoryStreams.Byte16AsWrittenDiffers | MemoryStreams.Byte16RoundTrip |
| lib/CFileSystemHandler.cpp:25-32 | `readByte32` has the same two defects | 8-byte buffer at cursor 4 yields bytes 0..3; 4-byte buffer at cursor 4 moves to 8 | the value at the cursor, refusing when fewer than 4 bytes remain | not executed | MemoryStreams.Byte32AsWrittenDiffers | MemoryStreams.Byte32RoundTrip |
| lib/CFileSystemHandler.cpp:492 | `transform` writes into an empty string, so name and extension are always empty | "a.def" gives ("", "") | ("A", ".DEF") | not executed | ResourceMaps.AdaptResourceNameAsWrittenLosesName | ResourceMaps.AdaptResourceNameUnique |
| lib/CFileSystemHandler.cpp:473 | the text key is "TXT" without a dot, so it never matches an extension | ".TXT" gives OTHER | ".TXT" gives TEXT | not executed | ResourceMaps.TextExtensionAsWritten | ResourceMaps.ExtensionTable |
| lib/CFileSystemHandler.cpp:80-97 | the map is taken by value, and `insert` does not replace an existing list | registering locator a in an empty map leaves it empty; adding b to [a] keeps [a] | locators appended to the caller's table | not executed | ResourceMaps.AddResourceToMapAsWrittenLosesLocators | ResourceMaps.AddAllLocators |
| lib/CFileSystemHandler.cpp:177 | the assertion requires the name to be ABSENT from the entries | any name the LOD catalog registered | the name has an entry | not executed | Loaders.LoadAssertInverted | Loaders.LoadAssert |
| lib/CFileSystemHandler.cpp:430 | the same inverted assertion in the media loader | any name the sound or video catalog registered | the name has an entry | not executed | Loaders.LoadAssertInverted | Loaders.LoadAssert |
| lib/CFileSystemHandler.cpp:554 | `insert` leaves an expired reference in place | a locator whose stream expired is reloaded on every later request | the reloaded stream replaces the expired reference | not executed | FileSystemHandlers.CacheInsertAsWrittenKeepsExpired | FileSystemHandlers.FileSystemHandler.AddResource |
| client/UIFramework/ImageClasses.cpp:146 | format 0 passes one byte, which selects the color overload | 2 x 1 frame with pixels 5, 6 decodes as [5, 5] | [5, 6] | not executed | DefFormat.Format0RawAsColorAsWritten | DefFormat.FrameRows |
| client/UIFramework/ImageClasses.cpp:204 | format 2 raw segments pass one byte, which selects the color overload | 2 x 1 frame with raw segment 5, 6 decodes as [5, 5] | [5, 6] | not executed | DefFormat.Format2RawAsColorAsWritten | DefFormat.FrameRows |
| client/UIFramework/ImageClasses.cpp:542 | the run length is set to 255 before `toCopy` is added, so the byte wraps to `toCopy - 1` | a run of 10 continued with 5 pixels of its color stores 4 + 0 pixels in that run | a run of 15 | not executed | CompFormat.AddColorAsWrittenLosesPixels | CompFormat.AddColorFacts |
| client/UIFramework/ImageClasses.cpp:493-500 | the do-while takes the next pixel before testing its type | a visible pixel then a transparent one form one raw block | opaque and semi-transparent data in separate blocks | not executed | CompFormat.RawRunAsWrittenMixesTypes | CompFormat.AddRawPixels |
| client/CResourceHandler.cpp:52-57 | `loadImage` does not record the new image in `images` | two requests for the same identifier while the first image is alive load it twice | the loaded image becomes the cached one | not executed | ResourceHandlers.RecordAsWrittenReloads | ResourceHandlers.ResourceHandler.GetImage |
