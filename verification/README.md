# Doom Legacy archive resource layer, in Dafny

This project models the archive resource layer of Doom Legacy. It covers two
source files.

- `legacy/Source/util/wad.cpp` decodes archive directories. It handles disk
  WADs (`Wad`), WADs held in memory (`WadFromMemory`), WAD2/WAD3 (`Wad3`),
  PACK (`Pak`) and ZIP/PK3 (`ZipFile`).
- `legacy/Source/util/w_wad.cpp` is the registry of open archives
  (`FileCache`). It covers lookups across archives, the 32-bit lump handle,
  file resolution and the loading of files by extension and magic number.
  It also covers the GL-node companion (GWA) search and the pruning of ZIP
  wrappers.

Storage is a `seq<byte>` and a file system is a map from paths to contents.
DEFLATE is a function parameter. Every directory is a `seq` of records and the
registry is a `seq` of archives. Every operation is a pure function, except for
three methods whose loops mirror the source: `CStrings.TestPadding`,
`Zip.GetCentralDirectoryEnd` and `Registry.CacheArchiveFileRemove`.

Modules, one per file:

- `Bytes`: little-endian readers and writers, and C's `|`, `&` and `<<`.
- `CStrings`: C strings, `strncpy`, case folding, `strrchr`, and `TestPadding`.
- `Storage`: stream reads, and 32-bit unsigned offset sums.
- `Tables`: fixed-width record tables (decode, encode, round trip).
- `Wad`: the `Wad` and `WadFromMemory` classes.
- `Wad3`: the `Wad3` class.
- `Pak`: the `Pak` class.
- `Zip`: the ZIP predicates, the central-directory walk, reads, and the nested
  WAD loader.
- `Registry`: the `FileCache` searches, handles, and the ZIP pruning.
- `Loader`: `Access`, `AddFile`, `GWA_Skip_Files` and `InitMultipleFiles`.

Outcomes the source leaves undefined are explicit values, never guesses:

- `Undefined` covers a header or directory read past the end of the file.
- `OutOfBuffer` covers a `memcpy` past the end of a buffer.
- `Crash` covers dereferencing `strrchr`'s NULL result.
- `Fatal` stands for `I_Error`, which ends the program.

The source behaves as follows in several places, and the model keeps that
behaviour and states it:

- The "IWAD"/"PWAD" test before a nested WAD is opened out of a ZIP can never
  fail: `Uint8 isIWAD = -1` holds 255, and `isIWAD >= 0` always holds
  (`wad.cpp:1349-1387`). `WadFromMemory::Open`'s test `isIWAD == -1` compares
  255 with -1 and is always false (`wad.cpp:503-507`). See
  `Wad.MemoryMagicNeverRejects` and `Zip.PickNested`.
- `FindNameForNum` ends the program for a file number past the registry, but
  returns NULL for an item number past the file (`w_wad.cpp:512-523`). See
  `Registry.FindNameForNum`.
- The WADs found inside a ZIP are pushed onto the registry while the ZIP
  opens, before the ZIP itself. `AddFile` then prunes every file whose
  extension is "zip" in any case, the new one included, so what stays of
  such a file is its WADs. A ".pk3" file, or a `PK\3\4` file under another
  name, is opened as a ZIP (`w_wad.cpp:354-388`) but survives the pruning,
  which tests only the extension (`w_wad.cpp:597-600`). See `Loader.OpenZip`,
  `Loader.AddFileKeepsOrder` and `Loader.AddFileZipLeavesNested`.
- `Access` calls `strrchr(f, '\\')` twice and never looks for `'/'`
  (`Loader.Basename`, `Loader.AccessKeepsForwardSlashes`).
- `Wad::Open` checks neither the magic nor the directory bounds
  (`Wad.OpenDisk`, `Wad.OpenDiskImage`). A directory offset of 2^31 or more
  is negative as an `int`, so the `fseek` fails and the directory is read
  from offset 12, right after the header. An empty directory reads nothing,
  so it opens wherever its offset points.
- Queries are upper-cased and stored names are not
  (`Wad.LowerCaseNameNeverFound`).
- `WadFromMemory::Open` builds two 32-bit name words from sign-extended
  `char`s and stores them back over the name through a union. A byte of
  0x80 or more therefore turns the rest of its four-byte half of the name
  into 0xFF bytes (`Wad.MemoryLumpSmeared`, `Wad.MemoryNameAt`,
  `Wad.MemoryLumpHighByteExample`).
- A deflated ZIP entry that is not a WAD reads as nothing
  (`Zip.DeflatedNonWadReadsNothing`).
- `AddFile` returns the registry size after pruning, not the new index
  (`Loader.AddFile`, `Loader.Register`).
- `AddFile` checks for duplicates by exact name, while `InitMultipleFiles`
  uses `stricmp` (`Loader.DuplicateTestIsCaseSensitive`).
- The GWA extension list holds "GwA" twice and never "gwA"
  (`Loader.GwaExtensionsAsListed`).
- An item number of 65536 or more spills into the file number of the handle
  (`Registry.HandleAliases`).

## Model

| member | source | states |
|---|---|---|
| Bytes.ReadLE32IsOr | legacy/Source/util/wad.cpp:43-50 | `p[0] \| p[1]<<8 \| p[2]<<16 \| p[3]<<24` is the little-endian value b0 + 2^8 b1 + 2^16 b2 + 2^24 b3, whatever the host order |
| Bytes.ReadLE16IsOr | legacy/Source/util/wad.cpp:52-57 | `p[0] \| p[1]<<8` is b0 + 2^8 b1 |
| Bytes.ReadLE32Encode | legacy/Source/util/wad.cpp:43-50 | a 32-bit value written as four little-endian bytes anywhere in a buffer reads back as that value |
| Bytes.EncodeReadLE32 | legacy/Source/util/wad.cpp:43-50 | the bytes of the value read are the four bytes read: the reader loses nothing |
| Bytes.ReadLE32Injective | legacy/Source/util/wad.cpp:43-50 | two 32-bit fields read equal exactly when their four bytes are equal |
| Bytes.ReadLE16Encode | legacy/Source/util/wad.cpp:52-57 | a 16-bit value written little-endian reads back as that value |
| Bytes.EncodeReadLE16 | legacy/Source/util/wad.cpp:52-57 | the bytes of the 16-bit value read are the two bytes read |
| Bytes.ReadLE16Injective | legacy/Source/util/wad.cpp:52-57 | two 16-bit fields read equal exactly when their bytes are equal |
| Bytes.OrLanes | legacy/Source/util/wad.cpp:46-49 | or-ing a value below 2^k into a value shifted left by k adds them, which is why the byte lanes of the readers never collide |
| Bytes.AndSingleBit | legacy/Source/util/wad.cpp:1028-1038 | `flags & 2^k` is non-zero exactly when bit k of the flags is set |
| CStrings.TestPadding | legacy/Source/util/wad.cpp:105-124 | every byte after the first NUL is cleared, every byte up to and including that NUL is kept, and the result is true exactly when some cleared byte was non-zero |
| CStrings.ZeroAfterNulIdempotent | legacy/Source/util/wad.cpp:105-124 | a second `TestPadding` finds nothing to clear, returns false and changes nothing |
| CStrings.ZeroAfterNulOfNulFree | legacy/Source/util/wad.cpp:105-124 | a name without any NUL (a full 8-byte WAD name) is left whole |
| CStrings.StrncpyCStr | legacy/Source/util/wad.cpp:192 | `strncpy(dst, src, n)` leaves the first min(n, strlen(src)) bytes of `src` as the C string in `dst` |
| CStrings.StrncpyOfRepaired | legacy/Source/util/wad.cpp:238-239 | `strncpy` of a repaired 8-byte name into the 8-byte runtime name copies it unchanged |
| CStrings.Extension | legacy/Source/util/w_wad.cpp:596-599 | `strrchr(s, '.') + 1` is the dot-free text after the last dot, and there is none exactly when `s` has no dot |
| CStrings.LastIndexOf | legacy/Source/util/w_wad.cpp:91-93 | `strrchr` finds the last occurrence, and finds nothing exactly when the byte is absent |
| CStrings.UpperAll | legacy/Source/util/wad.cpp:296 | `strupr` gives a string equal to the input ignoring case, with no lower-case letter, every other byte kept; `CStrings.UpperAllUnique` shows these facts determine it |
| CStrings.LowerAll | legacy/Source/util/w_wad.cpp:130 | `std::transform(..., ::tolower)` gives a string equal to the input ignoring case, with no upper-case letter, every other byte kept |
| Storage.FileRead | legacy/Source/util/wad.cpp:262-267 | `fseek` then `fread(dest, 1, size)` delivers exactly min(`size`, bytes left after `pos`) bytes: all `size` when the file holds them, the rest of the file when it does not, none from past the end, each the file's byte at its position |
| Storage.FileReadSplit | legacy/Source/util/wad.cpp:262-267 | two consecutive stream reads deliver what one read of the combined size does |
| Storage.AddU32 | legacy/Source/util/wad.cpp:265 | `l->offset + offset` on `unsigned` is the plain sum below 2^32 and wraps by exactly 2^32 otherwise |
| Tables.DecodeTableAt | legacy/Source/util/wad.cpp:225-240 | entry i of a directory read as `numitems` fixed-width records is the decoding of record i, at directory offset + i·width |
| Tables.DecodeEncodeTable | legacy/Source/util/wad.cpp:225-240 | records written end to end and read back as a table give the same entries, whatever precedes or follows them |
| Wad.DecodeEncodeEntry | legacy/Source/util/wad.cpp:142-147 | a `waddir_file_t` record (offset, size, 8-byte name) decodes to the entry it encodes |
| Wad.NameKeyInjective | legacy/Source/util/wad.cpp:151-160 | the two `iname` words of the `name[9]` union are equal exactly when the 8 name bytes are equal |
| Wad.StoredName | legacy/Source/util/wad.cpp:238-239 | the runtime name after `TestPadding` and `strncpy` has, at each position, either the record's byte or NUL |
| Wad.OpenDisk | legacy/Source/util/wad.cpp:207-248 | `Wad::Open` never rejects a file: it opens with `numentries` entries exactly when the header lies in the file and the directory is empty or lies in the file from where `fseek` leaves the stream (`diroffset`, or 12 when `diroffset` is negative as an `int`); every entry's words are its repaired name's bytes |
| Wad.DirectoryStart | legacy/Source/util/wad.cpp:219-228 | the directory is read from `diroffset` when it is non-negative as an `int`, and from 12, where the header read left the stream, when the `fseek` fails |
| Wad.DiskLumpClean | legacy/Source/util/wad.cpp:234-240 | each entry read from disk has a repaired name and words that match it |
| Wad.EntriesAt | legacy/Source/util/wad.cpp:225-240 | directory entry i is the 16-byte record at `diroffset + 16 i` |
| Wad.OpenDiskEntry | legacy/Source/util/wad.cpp:234-240 | entry i of an opened disk WAD has the offset and size of record i and its name repaired |
| Wad.OpenDiskImage | legacy/Source/util/wad.cpp:207-248 | a WAD image with well-formed names opens to exactly its entries, whatever its magic |
| Wad.ImageEntries | legacy/Source/util/wad.cpp:214-228 | the header of a written image points at its directory, which reads back whole |
| Wad.OpenMemory | legacy/Source/util/wad.cpp:478-569 | `WadFromMemory::Open` rejects exactly the buffers shorter than 12 bytes, opens exactly when the directory is empty or its `memcpy` from `data + diroffset` stays in the buffer, and then has the disk variant's entries with each name smeared by the union write-back and words that match it |
| Wad.MagicTag | legacy/Source/util/wad.cpp:503-505 | `isIWAD` is 0 exactly for "IWAD", 1 exactly for "PWAD", and keeps 255 otherwise |
| Wad.MemoryMagicNeverRejects | legacy/Source/util/wad.cpp:503-513 | `isIWAD == -1` never holds for a `Uint8`: no buffer of 12 bytes or more is rejected, any magic opens when the directory fits, and with a non-negative `diroffset` a memory WAD opens exactly when the same bytes open as a disk WAD |
| Wad.SignExtend | legacy/Source/util/wad.cpp:532-540 | `(Uint32)c` of a `char` below 0x80 is the byte, and of one at 0x80 or above sets every bit from 7 up |
| Wad.CharWordOfAscii | legacy/Source/util/wad.cpp:532-540 | for name bytes below 0x80 the memory variant's word equals the little-endian read of the name |
| Wad.CharWordOfHighByte | legacy/Source/util/wad.cpp:532-535 | a first name byte of 0x80 or more forces the word to 0xFFFFFF80 or above |
| Wad.HighByteBreaksKey | legacy/Source/util/wad.cpp:532-535 | such a name gets a first word that differs from the little-endian read of its stored bytes |
| Wad.HighByteQueryMisses | legacy/Source/util/wad.cpp:532-540 | a memory WAD entry whose name starts with a byte of 0x80 or above and whose fourth byte is not 0xFF is not found by `FindNumForName` under that very name |
| Wad.MemoryLumpOfAscii | legacy/Source/util/wad.cpp:524-540 | for an ASCII name the memory variant builds the same entry as the disk variant |
| Wad.OpenMemoryOfAscii | legacy/Source/util/wad.cpp:478-569 | with ASCII names a memory WAD opens to the very directory a disk WAD of the same bytes opens to |
| Wad.MemoryLumpSmeared | legacy/Source/util/wad.cpp:524-540 | each memory entry keeps its record's offset and size, its name is the repaired name with every byte after a byte of 0x80 or more in the same four-byte half turned to 0xFF, and its words match that name |
| Wad.MemoryNameAt | legacy/Source/util/wad.cpp:532-540 | byte k of a memory entry's name is 0xFF when an earlier byte of its four-byte half is 0x80 or more, and the repaired name's byte otherwise |
| Wad.MemoryLumpHighByteExample | legacy/Source/util/wad.cpp:532-540 | a record named 0x80 "ABCDEFG" gets the name 0x80 0xFF 0xFF 0xFF "DEFG" in memory |
| Wad.SmearAt | legacy/Source/util/wad.cpp:532-540 | the smear turns a name byte to 0xFF exactly when an earlier byte of its half is 0x80 or more |
| Wad.CharWordLanes | legacy/Source/util/wad.cpp:532-540 | the word or-ed from four sign-extended `char`s is the little-endian read of their smeared bytes |
| Wad.CreateSingle | legacy/Source/util/wad.cpp:177-201 | `Wad::Create` builds one lump at offset 0 covering the whole file, named by the first 8 bytes of the lump name |
| Wad.CreateSingleFound | legacy/Source/util/wad.cpp:177-201 | a single-lump wrapper whose name has no lower-case letter is found under its own name |
| Wad.QueryKey | legacy/Source/util/wad.cpp:289-296 | the query after `strncpy` to 8 bytes, `s[8] = 0` and `strupr` is 8 bytes with no lower-case letter |
| Wad.FindNumForName | legacy/Source/util/wad.cpp:281-313 | the result is the first entry from `startlump` on whose two words equal the query's, and -1 exactly when there is none |
| Wad.FindNumForNameByName | legacy/Source/util/wad.cpp:281-313 | on a disk directory the word comparison is the comparison of the stored name with the upper-cased, truncated, NUL-padded query: first match from `startlump`, -1 iff none |
| Wad.LowerCaseNameNeverFound | legacy/Source/util/wad.cpp:295-308 | a stored name with a lower-case letter is never the result, since stored names are not upper-cased |
| Wad.QueryCaseInsensitive | legacy/Source/util/wad.cpp:295-296 | a query gives the same result in lower case |
| Wad.FindPartialName | legacy/Source/util/wad.cpp:316-332 | the result is the first entry from `startlump` on whose first word equals `iname`, and -1 exactly when there is none |
| Wad.FindPartialNameByPrefix | legacy/Source/util/wad.cpp:316-332 | on a disk directory the partial search finds the first entry whose first four name bytes are the given four, -1 iff none |
| Wad.DiskReadItem | legacy/Source/util/wad.cpp:262-267 | `Wad::Internal_ReadItem` reads what `fread` delivers from the lump's offset plus `offset` (a 32-bit sum): exactly min(`size`, bytes left) bytes, so all `size` when the file holds them and none from past its end, each the file's byte there |
| Wad.MemoryReadItemClamped | legacy/Source/util/wad.cpp:638-662 | an item outside [0, numitems) or an offset at or past the lump size copies nothing; otherwise exactly min(size, lumpsize − offset) bytes of the lump from `offset` are copied |
| Wad.MemoryReadItemWraps | legacy/Source/util/wad.cpp:657-661 | when `offset + size` passes 2^32 the clamp's wrapped sum lets the full `size` through, so the copy runs past the lump |
| Wad3.DecodeEncodeItem | legacy/Source/util/wad.cpp:697-710 | a `wad3dir_t` record (offset, dsize, size, type, compression, 16-byte name) decodes to the item it encodes |
| Wad3.Open | legacy/Source/util/wad.cpp:729-765 | `Wad3::Open` never rejects a file: it opens with `numentries` items exactly when the header lies in the file and the directory is empty or lies in the file from where `fseek` leaves the stream, each name repaired by `TestPadding(name, 16)` |
| Wad3.OpenEntry | legacy/Source/util/wad.cpp:748-759 | item `i` of an opened WAD2/WAD3 is the 32-byte record `i` counted from where `fseek` left the stream (`diroffset`, or 12), with its name repaired by `TestPadding(name, 16)` |
| Wad3.EmptyDirectoryOpens | legacy/Source/util/wad.cpp:226-240 | a header announcing no entries opens, as a WAD and as a WAD2/WAD3, with an empty directory whatever its `diroffset`, since `fread` of zero records reads nothing |
| Wad3.OpenImage | legacy/Source/util/wad.cpp:729-765 | a written WAD2/WAD3 image opens to its items with their names repaired |
| Wad3.WordsInjective | legacy/Source/util/wad.cpp:705-709 | the four `iname` words are equal exactly when the 16 name bytes are equal |
| Wad3.FindNumForName | legacy/Source/util/wad.cpp:801-826 | the result is the first item from `startlump` on whose four words equal those of the query as `strncpy(s, name, 16)` leaves it, and -1 exactly when there is none |
| Wad3.FindNumForNameByName | legacy/Source/util/wad.cpp:801-826 | the search is a case-sensitive comparison of the 16-byte names: first match from `startlump`, -1 iff none |
| Wad3.ReadItem | legacy/Source/util/wad.cpp:786-794 | a compressed lump reads as -1, exactly when its compression byte is non-zero; otherwise the stream read from the lump's offset plus `offset` gives exactly min(`size`, bytes left) bytes, so all `size` when the file holds them and none from past its end |
| Pak.NumItems | legacy/Source/util/wad.cpp:879 | `dirsize / 64` counts the whole records in the directory size, ignoring a partial one |
| Pak.DecodeEncodeItem | legacy/Source/util/wad.cpp:844-849 | a `pakdir_t` record (56-byte name, offset, size) decodes to the item it encodes |
| Pak.RepairName | legacy/Source/util/wad.cpp:896-897 | `TestPadding(name, 56)` then `name[55] = 0` leaves a clean name whose string is the original's cut at 55 bytes |
| Pak.Open | legacy/Source/util/wad.cpp:868-903 | `Pak::Open` never rejects a file: it opens with `dirsize / 64` items exactly when the directory is empty or lies in the file from where `fseek` leaves the stream, each name NUL-terminated within 56 bytes |
| Pak.OpenEntry | legacy/Source/util/wad.cpp:887-899 | item `i` of an opened PACK is the 64-byte record `i` counted from where `fseek` left the stream (`diroffset`, or 12), with its name cut and NUL-terminated within 56 bytes |
| Pak.EmptyDirectoryOpens | legacy/Source/util/wad.cpp:887-899 | a directory size under 64 bytes opens an empty PACK directory whatever its `diroffset` |
| Pak.ImageHeader | legacy/Source/util/wad.cpp:876-880 | the header of a written PACK image gives the directory offset and the item count back |
| Pak.OpenImage | legacy/Source/util/wad.cpp:868-903 | a written PACK image with well-formed names opens to exactly its items |
| Pak.RepairedWellFormed | legacy/Source/util/wad.cpp:896-897 | the name repair leaves a well-formed name unchanged |
| Pak.ReadItem | legacy/Source/util/wad.cpp:924-929 | `Pak::Internal_ReadItem` reads, unchecked against the item's size, exactly min(`size`, bytes left) bytes from the item's offset plus `offset`, so all `size` when the file holds them and none from past its end |
| Zip.FlagCheckMeaning | legacy/Source/util/wad.cpp:1026-1055 | `ZIP_FlagCheck` rejects an entry exactly when flag bit 0 or bit 3 is set, the method is neither 0 nor 8, or the method is 0 with unequal sizes (sections 4.4.4 and 4.4.5 of APPNOTE.TXT) |
| Zip.IsCorruptedMeaning | legacy/Source/util/wad.cpp:1056-1065 | `ZIP_isCorrupted` is true exactly when the EOCD position is below offset + size, that sum wrapping at 2^32 |
| Zip.IsMultiFilesOfBytes | legacy/Source/util/wad.cpp:1067-1082 | `ZIP_isMultiFiles` is true exactly when the disk number or the start disk is non-zero or the entry counts differ, comparing raw fields as decoded ones |
| Zip.LastEocd | legacy/Source/util/wad.cpp:1145-1159 | the highest position at or below the start of the scan holding `PK\5\6`, or -1 when there is none |
| Zip.LastEocdIs | legacy/Source/util/wad.cpp:1145-1159 | a position holding the signature, with none above it, is the one the scan finds |
| Zip.EocdFound | legacy/Source/util/wad.cpp:1140-1172 | a last signature at k makes the scan report `size − max_csize + k` |
| Zip.GetCentralDirectoryEnd | legacy/Source/util/wad.cpp:1140-1172 | the backward scan from `max_csize − 22` returns `size − max_csize + k` for the highest k holding the EOCD signature (section 4.3.16 of APPNOTE.TXT), and 0 when there is none, including `max_csize < 22` |
| Zip.RecordStep | legacy/Source/util/wad.cpp:1237-1316 | one iteration of the walk moves strictly forward within the directory and keeps only accepted entries |
| Zip.ShortRecordStops | legacy/Source/util/wad.cpp:1240-1253 | a central header with the right signature that the directory cuts short after its size fields (bytes 28-33) ends the walk, since only those fields are read before the `p > tempdir + dir_size` test |
| Zip.ShortRecordWalkOpens | legacy/Source/util/wad.cpp:1236-1253 | the walk over such a record opens with no entries from there on |
| Zip.ShortRecordExample | legacy/Source/util/wad.cpp:1240-1253 | a directory of one `PK\1\2` signature and 36 zero bytes opens with no entries |
| Zip.KeptRecord | legacy/Source/util/wad.cpp:1237-1316 | a kept entry had the central signature `PK\1\2` (section 4.3.12 of APPNOTE.TXT), a name not ending in '/', passing flags, a local header `PK\3\4` (section 4.3.7 of APPNOTE.TXT) whose flags, method and sizes match, a name cut at 64 bytes, and data offset local_header_offset + 30 + filename_size + extrafield_size |
| Zip.Walk | legacy/Source/util/wad.cpp:1237-1316 | the walk accepts at most as many entries as it has records left, each accepted |
| Zip.SearchWindow | legacy/Source/util/wad.cpp:1187-1199 | the bytes searched for the EOCD record are the last min(size, 256 KiB) bytes of the file |
| Zip.Open | legacy/Source/util/wad.cpp:1173-1336 | an empty file is refused, an opened archive has an EOCD signature in the search window, and every entry it keeps is accepted |
| Zip.OpenBounded | legacy/Source/util/wad.cpp:1173-1336 | an opened archive is single-disk and keeps no more entries than `total_num_entries` |
| Zip.MultiDiskRefused | legacy/Source/util/wad.cpp:1210-1214 | a multi-disk archive is refused |
| Zip.ReadItem | legacy/Source/util/wad.cpp:1455-1572 | an item outside [0, numitems) or of size 0 reads nothing; a stored item is a stream read from its offset plus `offset`; no read exceeds `size` |
| Zip.DeflatedNonWadReadsNothing | legacy/Source/util/wad.cpp:1554-1566 | a deflated entry whose inflated bytes do not begin with IWAD or PWAD reads as 0 bytes |
| Zip.DeflatedWadReads | legacy/Source/util/wad.cpp:1554-1571 | a deflated WAD read within its size returns the inflated bytes from `offset` |
| Zip.ReadStored | legacy/Source/util/wad.cpp:1471-1475 | a stored entry inside the file is read whole from its offset |
| Zip.PickNested | legacy/Source/util/wad.cpp:1355-1407 | an entry is taken only with a "wad"/"gwa" extension and at least 12 bytes, when the full read succeeds and the bytes open as a memory WAD |
| Zip.LoadNested | legacy/Source/util/wad.cpp:1342-1416 | the nested loader registers at most one WAD per entry, every one of them taken |
| Zip.StoredWadTaken | legacy/Source/util/wad.cpp:1355-1407 | a stored "wad" entry inside the file whose directory fits is taken whole, from its offset |
| Zip.StoredWadLoaded | legacy/Source/util/wad.cpp:1342-1416 | such an entry is registered first among the WADs loaded from it onwards |
| Registry.FirstNamed | legacy/Source/util/w_wad.cpp:435-464 | the first item from `start` on whose name matches the query ignoring case, -1 iff none |
| Registry.FindIn | legacy/Source/util/w_wad.cpp:445 | an archive's own search returns -1 or an item number from `start` on within the archive |
| Registry.PartialIn | legacy/Source/util/w_wad.cpp:504 | only WAD directories search by prefix: any other archive answers -1, and a WAD answers an item whose first word is `iname` |
| Registry.Handle | legacy/Source/util/w_wad.cpp:448 | `(i << 16) + res` is a 32-bit `int`, non-negative for encodable files and items |
| Registry.FileOf | legacy/Source/util/w_wad.cpp:514 | `lump >> 16` into `unsigned` is the file whose 65536-item span holds a non-negative handle |
| Registry.ItemOf | legacy/Source/util/w_wad.cpp:515 | `lump & 0xffff` is the item number modulo 65536 |
| Registry.HandleRoundTrip | legacy/Source/util/w_wad.cpp:512-515 | a handle built as at line 448, decoded again, gives back its file and item while the item is below 65536 |
| Registry.HandleAliases | legacy/Source/util/w_wad.cpp:448 | an item of 65536 or more makes the same handle as an item of the next file |
| Registry.HandleAliasExample | legacy/Source/util/w_wad.cpp:512-515 | item 65536 of file 0 decodes as item 0 of file 1 |
| Registry.NotFoundDecodes | legacy/Source/util/w_wad.cpp:514-515 | -1 decodes to file 2^32 − 1, item 65535 |
| Registry.HandleIsNotNotFound | legacy/Source/util/w_wad.cpp:448-463 | no handle of an encodable file is the "not found" value -1 |
| Registry.LastSet | legacy/Source/util/w_wad.cpp:441-449 | the backward scan stops at the highest file holding the name, -1 iff none |
| Registry.FirstSet | legacy/Source/util/w_wad.cpp:455-460 | the forward scan stops at the lowest file holding the name, -1 iff none |
| Registry.FindNumForNameDecodes | legacy/Source/util/w_wad.cpp:435-464 | the result is -1 iff no file has the name; otherwise it decodes to the highest-index file holding it (the lowest when scanning forward) and that file's own hit |
| Registry.LaterFileOverrides | legacy/Source/util/w_wad.cpp:441-449 | a file loaded after all others wins for every name it has |
| Registry.LaterFileIgnoredForward | legacy/Source/util/w_wad.cpp:455-460 | scanning forward, a later file changes nothing for a name an earlier file has |
| Registry.FirstSetAppend | legacy/Source/util/w_wad.cpp:455-460 | appending a file does not move the forward scan's first hit |
| Registry.FindNumForNameFile | legacy/Source/util/w_wad.cpp:481-495 | a file number at or past the registry size stops the program; a miss in that file is -1 |
| Registry.FindNumForNameFileDecodes | legacy/Source/util/w_wad.cpp:481-495 | otherwise the result is -1 iff that file has no hit from `startlump`, and else decodes to that file and its hit |
| Registry.FindPartialName | legacy/Source/util/w_wad.cpp:499-505 | a file number past the registry stops the program; otherwise only that file is searched from `startlump` |
| Registry.PartialNameIsNotAHandle | legacy/Source/util/w_wad.cpp:499-505 | the item number it returns carries no file number, so a hit in file f > 0 decodes to file 0 |
| Registry.FindNameForNum | legacy/Source/util/w_wad.cpp:512-524 | a file number past the registry stops the program, an item past the file gives NULL, and otherwise the result is the item's name |
| Registry.FoundNameRoundTrip | legacy/Source/util/w_wad.cpp:435-464 | the handle a search finds names an existing item |
| Registry.NameOfNotFound | legacy/Source/util/w_wad.cpp:512-517 | asking for the name of -1 stops the program |
| Registry.ReadLumpHeader | legacy/Source/util/w_wad.cpp:551-562 | a file or item number out of range stops the program; otherwise the read goes to that file's item, whose handle is the one given |
| Registry.ReadLumpHeaderOfHandle | legacy/Source/util/w_wad.cpp:551-562 | every item of a valid registry is read through its own handle |
| Registry.FilterMembers | legacy/Source/util/w_wad.cpp:593-618 | an element survives the in-place erase loop exactly when it was there and is accepted |
| Registry.WithoutZipsMembers | legacy/Source/util/w_wad.cpp:593-618 | an archive survives the pruning exactly when it was there and its extension is not "zip" in any case |
| Registry.WithoutZipsAppend | legacy/Source/util/w_wad.cpp:593-618 | pruning a concatenation prunes each part and keeps their order |
| Registry.WithoutZipsIdempotent | legacy/Source/util/w_wad.cpp:593-618 | no ZIP survives, so pruning twice prunes once |
| Registry.CacheArchiveFileRemove | legacy/Source/util/w_wad.cpp:593-618 | the erase loop keeps exactly the files whose extension is not "zip" (ignoring case), in their relative order, and returns the new count as a `Uint16` |
| Loader.Basename | legacy/Source/util/w_wad.cpp:90-97 | the name used elsewhere is the backslash-free suffix that follows the last backslash, the whole name when there is none |
| Loader.Access | legacy/Source/util/w_wad.cpp:81-123 | the result always exists, and there is none exactly when neither `f`, nor datapath\\basename, nor exedir\\basename exists |
| Loader.AccessOrder | legacy/Source/util/w_wad.cpp:81-123 | the result is the first existing path in the order `f`, datapath\\basename, exedir\\basename |
| Loader.AccessKeepsForwardSlashes | legacy/Source/util/w_wad.cpp:90-97 | a path with forward slashes only is looked for whole under the data path |
| Loader.StripPath | legacy/Source/util/w_wad.cpp:323 | the base name is the separator-free suffix that follows the last '/' or '\\', the whole path when there is none |
| Loader.LmpLumpName | legacy/Source/util/w_wad.cpp:323-326 | the lump name of a `.lmp` file is its base name minus ".lmp", cut at 8 bytes |
| Loader.NameKind | legacy/Source/util/w_wad.cpp:304-339 | ".deh"/".hhe" (any case) give a single lump "DEHACKED", ".lmp" a single lump named after the file, a trailing '/' a folder, and anything else goes on to the magic test, each exactly in the source's order |
| Loader.MagicKind | legacy/Source/util/w_wad.cpp:354-388 | IWAD/PWAD give a WAD, WAD2/WAD3 a WAD3, PACK a PAK, `PK\3\4` or a ".zip"/".pk3" name a ZIP, each exactly, and anything else is unknown |
| Loader.MagicBeforeExtension | legacy/Source/util/w_wad.cpp:354-377 | the magic number is tested before the ".zip" name |
| Loader.OpenZip | legacy/Source/util/wad.cpp:1173-1336 | an opened ZIP is the archive of its accepted directory, carrying the WADs the nested loader took (in entry order, under their entry names) when some entry is a WAD and none otherwise; a fatal nested load stops, and a refused ZIP opens nothing |
| Loader.AddFileZipLeavesNested | legacy/Source/util/w_wad.cpp:393-402 | a file whose extension is "zip" that is added is pruned at once, leaving the earlier files, less ZIPs, and then the WADs it carried |
| Loader.FirstNamedFile | legacy/Source/util/w_wad.cpp:285-292 | the duplicate check finds the first file whose name is byte for byte `fname`, -1 iff none |
| Loader.AddFile | legacy/Source/util/w_wad.cpp:272-407 | a full registry gives -1 unchanged; -1 never changes the registry; a file that is not a duplicate and does not fail returns the new registry size modulo 65536, never an index |
| Loader.Register | legacy/Source/util/w_wad.cpp:399-402 | the push followed by the pruning leaves the earlier files, less ZIPs, then the pushed archives, less ZIPs, with no ZIP anywhere, and returns the size after it |
| Loader.AddFileKeepsOrder | legacy/Source/util/w_wad.cpp:393-402 | an added file leaves the earlier files, less ZIPs, in front and in order, then the WADs it carried and then itself, each less ZIPs, and no ZIP anywhere |
| Loader.AddFileDuplicate | legacy/Source/util/w_wad.cpp:285-292 | a file registered under exactly this name is not opened again: the registry stays and its first index comes back |
| Loader.DuplicateTestIsCaseSensitive | legacy/Source/util/w_wad.cpp:285-292 | a file registered under the upper-case spelling of a name with a lower-case letter is no duplicate for `AddFile` (which does not hand back its index), though `InitMultipleFiles`'s `stricmp` counts it as loaded |
| Loader.AddFileMissing | legacy/Source/util/w_wad.cpp:294-298 | a file found nowhere is refused with -1; for a silent call this takes the open of a NULL path to fail (see "## Left out") |
| Loader.AddFileDehacked | legacy/Source/util/w_wad.cpp:304-320 | a ".deh" or ".hhe" file that exists is registered as one lump "DEHACKED" covering the file |
| Loader.AddFileOpened | legacy/Source/util/w_wad.cpp:393-406 | once the file opens, what it opened is pushed and the registry pruned |
| Loader.AddFileWad | legacy/Source/util/w_wad.cpp:340-406 | a file with magic IWAD/PWAD is opened as a disk WAD of its own bytes and appended |
| Loader.GwaBase | legacy/Source/util/w_wad.cpp:240 | the candidate stem is what is left of the name once its last three bytes are taken off, the whole name when it is shorter |
| Loader.GwaCandidates | legacy/Source/util/w_wad.cpp:240-245 | candidate i is the name with its last three bytes replaced by listed extension i (appended to a shorter name); each ends in "gwa" in some case |
| Loader.GwaExtensionsAsListed | legacy/Source/util/w_wad.cpp:204 | every listed extension is "gwa" in some case, "gwA" is missing and "GwA" appears twice |
| Loader.GwaSearch | legacy/Source/util/w_wad.cpp:242-251 | the search stops at the first candidate whose `AddFile` is not -1 and keeps that registry; with none, nothing changes |
| Loader.LoadOne | legacy/Source/util/w_wad.cpp:207-256 | one file is a failure exactly when it was not loaded and `AddFile` returned -1; outside OpenGL mode or for "legacy.wad" no GWA is tried |
| Loader.LoadOneGwa | legacy/Source/util/w_wad.cpp:233-251 | in OpenGL mode, for a name without "legacy.wad", the file is followed by the first candidate that a silent `AddFile` adds against the registry the file left, or by nothing when none adds |
| Loader.LoadOneMissingFails | legacy/Source/util/w_wad.cpp:223-230 | a file found nowhere and not loaded fails its iteration |
| Loader.InitStepwise | legacy/Source/util/w_wad.cpp:199-264 | a call that returns loaded each file against the registry the files before it left, and reports success exactly when every file was already loaded or added |
| Loader.InitLoopStepwise | legacy/Source/util/w_wad.cpp:206-256 | the loop reaches every file when it ends, and its result is true exactly when every iteration's is |
| Loader.InitAllLoaded | legacy/Source/util/w_wad.cpp:199-264 | when every file is already loaded and no GWA is sought, nothing changes and the result is true |
| Loader.InitMissingFileFails | legacy/Source/util/w_wad.cpp:223-230 | a file at any position, found nowhere and not loaded when its turn comes, makes the result false |

## Left out

- I/O. `fopen`, `fread`, `fseek`, `access` and `opendir` are a map from paths
  to contents (`Loader.Env`). A file that exists is taken to open and read
  fully. A file shorter than a header is an undefined read. Paths are byte
  strings without NUL.
- `VDataFile::Open`, `VDir::Open` and `FIL_StripPath` are not part of this
  model. Their assumed behaviour:
  - a file opens when its path is a file of the map;
  - a folder opens when its path is a folder;
  - `FIL_StripPath` keeps the text after the last '/' or '\\'.
- The name map (`imap`) of `Pak` and `ZipFile` is in vfile.cpp, which is not
  part of this model. Their name search is taken to be the first
  case-insensitive match (`Registry.FirstNamed`). The base
  `FindPartialName` of non-WAD archives is taken to answer -1.
- `ProgrammPath` (the executable's directory) and the data path are
  parameters of `Loader.Env`.
- `MAX_WADFILES` is defined outside the core, so it is a parameter.
- `rendermode` is a parameter.
- `DEH.LoadDehackedLump`, `Wad::LoadDehackedLumps` and
  `WadFromMemory::Lump_Extract` are left out. They process lumps or write
  files and do not change the directory.
- `ListItems`, `CacheListIndex` and `CONS_Printf` are logging.
- `Z_Malloc` zone tags and allocation failure: allocation always succeeds.
- The double `Z_Free` of the EOCD search buffer (legacy/Source/util/wad.cpp:1170
  and 1202) frees a block that is already free. `Z_Free` is not part of this
  model, so what that second call does is undefined here and is not
  modelled.
- zlib (raw DEFLATE, section 3 of RFC 1951) is the parameter `Zip.Inflater`.
  An inflater failure is `I_Error`. The lump cache filled at first use is not
  modelled: every read inflates again, and the result is the same.
- `FileCache::GetNumForName`, `LumpLength`, `CacheLumpNum`, `GetItemSize`,
  `GetItemName`, `Name` and `GetNumLumps` are left out. They are accessors
  over the searches and reads that are modelled.
- The out-parameter `fullname` of `FindPartialName` is left out. It is the
  name of the entry found, which `Registry.FindNameForNum` gives.
- The older `InitMultipleFiles` (legacy/Source/util/w_wad.cpp:147-181) is
  commented out in the source and is not modelled.
- Every file is shorter than 4 GiB (`Loader.FileData`), so its size fits the
  32-bit size field of a single-lump wrapper.
- `startlump` is a `nat`: no caller passes a negative start.
- The host is taken to be little-endian, with 8-bit signed `char`, 32-bit
  `int` and 64-bit `long`. With a 32-bit `long`, an item position of 2^31 or
  more would make the `fseek` of a stream read fail, and the read would
  start wherever the stream was (`Wad.DiskReadItem`, `Wad3.ReadItem`,
  `Pak.ReadItem` read at the full unsigned position). `WadFromMemory`'s name words and their write-back over the name
  (`Wad.MemoryLumpSmeared`) depend on all three; on a host with unsigned
  `char` the names would stay as they are (`Wad.SmearOfAscii` covers the
  names that are the same either way).
- A `numentries` of 2^31 or more is negative as an `int`: `Z_Malloc` and
  `fread` then get a negative size, so the open is `Undefined`. The same holds
  for a memory WAD whose non-empty directory starts at a negative `diroffset`,
  which `memcpy`s from before the buffer.
- Loader.Open: has no `ensures` of its own. Its cases are stated through
  `Loader.NameKind`, `Loader.MagicKind`, `Loader.OpenZip`,
  `Loader.AddFileDehacked`, `Loader.AddFileWad` and `Loader.AddFileOpened`.
  A silent `AddFile` of a file that `Access` did not find goes on with
  `name == NULL` (`w_wad.cpp:294`), so `fopen(NULL, "rb")` (`w_wad.cpp:348`),
  `Wad::Create(NULL, ..)` or `VDir::Open(NULL)` is called. Section 7.1.4 of
  the C standard leaves such a call undefined. The model takes it to fail,
  so the file opens nothing, and the silent half of `Loader.AddFileMissing`,
  `Loader.GwaSearch` and `Loader.LoadOneGwa` (every GWA candidate that does
  not exist goes this way) rest on that assumption.
- Registry.FoundNameRoundTrip: states that the name exists. It does not state
  that the name equals the query, because archives compare names differently
  (case-insensitive words for WADs, exact words for WAD3).
- Registry.FindNumForName: its own contract bounds only the 32-bit result.
  What the result means is stated by `Registry.FindNumForNameDecodes`, on
  registries whose files and items have handles.
- Zip.Open: does not state the exact entry list. `Zip.Walk` and
  `Zip.KeptRecord` state it one record at a time.
