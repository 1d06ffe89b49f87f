/**
 ZIP and PK3 archives (`ZipFile`), following the PKWARE APPNOTE.TXT
 layout: the end-of-central-directory record (section 4.3.16) is searched for
 backwards in the last 256 KiB, the central directory (section 4.3.12) is
 walked record by record, each record is cross-checked against its local
 file header (section 4.3.7), and only unencrypted entries without a data
 descriptor that are stored or deflated (sections 4.4.4 and 4.4.5) are kept.
 */
module Zip {
  import opened Bytes
  import opened CStrings
  import opened Tables
  import opened Storage
  import Wad

  const SEARCH_RANGE: nat := 1024 * 256
  const EOCD_SIZE: nat := 22
  const CENTRAL_SIZE: nat := 46
  const LOCAL_SIZE: nat := 30
  const NAME_LENGTH: nat := 64
  const Z_DEFLATED: nat := 8

  const PK12: seq<byte> := [0x50, 0x4B, 0x01, 0x02]
  const PK34: seq<byte> := [0x50, 0x4B, 0x03, 0x04]
  const PK56: seq<byte> := [0x50, 0x4B, 0x05, 0x06]

  const WAD_EXT: seq<byte> := [0x77, 0x61, 0x64]  // "wad"
  const GWA_EXT: seq<byte> := [0x67, 0x77, 0x61]  // "gwa"

  //----------------------------------------------------------------------
  // Records
  //----------------------------------------------------------------------

  /** The end-of-central-directory record (`zip_central_directory_end_t`). */
  datatype Eocd = Eocd(diskNumber: uint16, cdStartDisk: uint16, entriesOnDisk: uint16, totalEntries: uint16,
                       cdSize: uint32, cdOffset: uint32, commentSize: uint16)

  function DecodeEocd(s: seq<byte>, off: nat): Eocd
    requires off + EOCD_SIZE <= |s|
  {
    Eocd(ReadLE16(s, off + 4), ReadLE16(s, off + 6), ReadLE16(s, off + 8), ReadLE16(s, off + 10),
         ReadLE32(s, off + 12), ReadLE32(s, off + 16), ReadLE16(s, off + 20))
  }

  /** The fields of a central directory file header (`zip_file_header_t`) that the walk reads. */
  datatype Central = Central(flags: uint16, compression: uint16, csize: uint32, size: uint32,
                             nameSize: uint16, extraSize: uint16, commentSize: uint16, localOffset: uint32)

  function DecodeCentral(s: seq<byte>, off: nat): Central
    requires off + CENTRAL_SIZE <= |s|
  {
    Central(ReadLE16(s, off + 8), ReadLE16(s, off + 10), ReadLE32(s, off + 20), ReadLE32(s, off + 24),
            ReadLE16(s, off + 28), ReadLE16(s, off + 30), ReadLE16(s, off + 32), ReadLE32(s, off + 42))
  }

  /** The fields of a local file header (`zip_local_header_t`) that the walk reads. */
  datatype Local = Local(flags: uint16, compression: uint16, csize: uint32, size: uint32, nameSize: uint16, extraSize: uint16)

  function DecodeLocal(s: seq<byte>, off: nat): Local
    requires off + LOCAL_SIZE <= |s|
  {
    Local(ReadLE16(s, off + 6), ReadLE16(s, off + 8), ReadLE32(s, off + 18), ReadLE32(s, off + 22),
          ReadLE16(s, off + 26), ReadLE16(s, off + 28))
  }

  /** The four bytes at `off` are `sig`. */
  predicate SignatureAt(s: seq<byte>, off: nat, sig: seq<byte>)
  {
    off + 4 <= |s| && s[off..off + 4] == sig
  }

  //----------------------------------------------------------------------
  // Validation predicates
  //----------------------------------------------------------------------

  /** `ZIP_FlagCheck` returns 1: the entry cannot be used. */
  predicate FlagCheckFails(flags: uint16, compression: uint16, size: uint32, csize: uint32)
  {
    || And(flags, 0x1) != 0
    || And(flags, 0x8) != 0
    || (compression != 0 && compression != Z_DEFLATED)
    || (compression == 0 && size != csize)
  }

  /**
   The gate in APPNOTE terms: bit 0 (encrypted) or bit 3 (data descriptor)
   of the general purpose flags set, a method other than 0 (stored) and 8
   (deflated), or a stored entry whose two sizes differ.
   */
  lemma FlagCheckMeaning(flags: uint16, compression: uint16, size: uint32, csize: uint32)
    ensures FlagCheckFails(flags, compression, size, csize)
            <==> Bit(flags, 0) == 1 || Bit(flags, 3) == 1 || (compression != 0 && compression != 8) || (compression == 0 && size != csize)
  {
    assert Pow2(0) == 1 && Pow2(3) == 8;
    AndSingleBit(flags, 0);
    AndSingleBit(flags, 3);
  }

  /**
   `ZIP_isCorrupted`: the directory would end after the EOCD record. The sum
   is a `Uint32` and wraps.
   */
  predicate IsCorrupted(cdEnd: uint32, dirSize: uint32, dirOffset: uint32)
  {
    cdEnd < AddU32(dirOffset, dirSize)
  }

  /** Without wrap-around the test is the plain bound; with it, a directory past 4 GiB passes. */
  lemma IsCorruptedMeaning(cdEnd: uint32, dirSize: uint32, dirOffset: uint32)
    ensures dirOffset + dirSize < TWO32 ==> (IsCorrupted(cdEnd, dirSize, dirOffset) <==> cdEnd < dirOffset + dirSize)
    ensures dirOffset + dirSize >= TWO32 && cdEnd >= dirOffset + dirSize - TWO32 ==> !IsCorrupted(cdEnd, dirSize, dirOffset)
  {
  }

  /** `ZIP_isMultiFiles`. */
  predicate IsMultiFiles(e: Eocd)
  {
    e.diskNumber != 0 || e.cdStartDisk != 0 || e.entriesOnDisk != e.totalEntries
  }

  /**
   The source compares the raw `Uint16` fields without byte swapping; the
   outcome is the same as comparing the decoded values.
   */
  lemma IsMultiFilesOfBytes(s: seq<byte>, off: nat)
    requires off + EOCD_SIZE <= |s|
    ensures IsMultiFiles(DecodeEocd(s, off))
            <==> s[off + 4..off + 6] != [0, 0] || s[off + 6..off + 8] != [0, 0] || s[off + 8..off + 10] != s[off + 10..off + 12]
  {
    ReadLE16Injective(s, off + 8, s, off + 10);
    ReadLE16Injective(s, off + 4, [0, 0], 0);
    ReadLE16Injective(s, off + 6, [0, 0], 0);
    assert [0, 0][0..2] == [0, 0];
  }

  /** `ZIP_CentralDirectory_Match`. */
  predicate LocalMatches(c: Central, l: Local)
  {
    l.flags == c.flags && l.compression == c.compression && l.csize == c.csize && l.size == c.size
  }

  //----------------------------------------------------------------------
  // The end-of-central-directory search
  //----------------------------------------------------------------------

  predicate IsEocdAt(buf: seq<byte>, k: int)
  {
    0 <= k && SignatureAt(buf, k, PK56)
  }

  /** The highest position at or below `k` holding an EOCD signature, or -1. */
  function LastEocd(buf: seq<byte>, k: int): (r: int)
    ensures -1 <= r && (k >= 0 ==> r <= k) && (k < 0 ==> r == -1)
    ensures r >= 0 ==> IsEocdAt(buf, r)
    ensures forall j | r < j <= k :: !IsEocdAt(buf, j)
    decreases k + 1
  {
    if k < 0 then -1
    else if IsEocdAt(buf, k) then k
    else LastEocd(buf, k - 1)
  }

  /** The highest signature position is the one the three facts above describe. */
  lemma {:induction false} LastEocdIs(buf: seq<byte>, top: int, k: int)
    requires -1 <= k && (k <= top || k == -1)
    requires k >= 0 ==> IsEocdAt(buf, k)
    requires forall j | k < j <= top :: !IsEocdAt(buf, j)
    ensures LastEocd(buf, top) == k
    decreases top - k
  {
    if top >= 0 && top != k {
      LastEocdIs(buf, top - 1, k);
    }
  }

  /**
   The value `ZIP_Get_CentralDirectoyEnd` returns for the last `|buf|` bytes
   of a file of `size` bytes: the file position of the last signature that
   leaves room for a whole record, or 0.
   */
  function EocdPosition(buf: seq<byte>, size: nat): uint32
  {
    var k := LastEocd(buf, |buf| - EOCD_SIZE);
    if k < 0 then 0 else (size - |buf| + k) % TWO32
  }

  /** A last signature at `k` is the position the search reports. */
  lemma EocdFound(buf: seq<byte>, size: nat, k: nat)
    requires k <= |buf| - EOCD_SIZE && LastEocd(buf, |buf| - EOCD_SIZE) == k
    ensures var pos := EocdPosition(buf, size);
            pos == (size - |buf| + k) % TWO32
            && (pos != 0 ==> exists k' | 0 <= k' <= |buf| - EOCD_SIZE ::
                  && IsEocdAt(buf, k') && pos == (size - |buf| + k') % TWO32
                  && forall j | k' < j <= |buf| - EOCD_SIZE :: !IsEocdAt(buf, j))
  {
    assert IsEocdAt(buf, k);
  }

  /** The backward scan of `ZIP_Get_CentralDirectoyEnd`, loop for loop. */
  method GetCentralDirectoryEnd(buf: seq<byte>, size: nat) returns (pos: uint32)
    requires |buf| <= size
    ensures pos == EocdPosition(buf, size)
    ensures pos != 0 ==> exists k | 0 <= k <= |buf| - EOCD_SIZE ::
                           && IsEocdAt(buf, k) && pos == (size - |buf| + k) % TWO32
                           && forall j | k < j <= |buf| - EOCD_SIZE :: !IsEocdAt(buf, j)
    ensures (forall k | 0 <= k <= |buf| - EOCD_SIZE :: !IsEocdAt(buf, k)) ==> pos == 0
  {
    pos := 0;
    var k := |buf| - EOCD_SIZE;
    while k >= 0
      invariant k <= |buf| - EOCD_SIZE
      invariant forall j | k < j <= |buf| - EOCD_SIZE :: !IsEocdAt(buf, j)
      invariant pos == 0
    {
      if buf[k] == 0x50 && buf[k + 1] == 0x4B && buf[k + 2] == 0x05 && buf[k + 3] == 0x06 {
        assert buf[k..k + 4] == PK56;
        LastEocdIs(buf, |buf| - EOCD_SIZE, k);
        pos := (size - |buf| + k) % TWO32;
        EocdFound(buf, size, k);
        return;
      }
      assert !IsEocdAt(buf, k) by {
        var w := buf[k..k + 4];
        assert w[0] == buf[k] && w[1] == buf[k + 1] && w[2] == buf[k + 2] && w[3] == buf[k + 3];
      }
      k := k - 1;
    }
    LastEocdIs(buf, |buf| - EOCD_SIZE, -1);
  }

  //----------------------------------------------------------------------
  // The central-directory walk
  //----------------------------------------------------------------------

  /** A runtime directory entry (`zipdir_t`); `offset` points at the entry's data. */
  datatype Item = Item(name: seq<byte>, offset: uint32, csize: uint32, size: uint32, deflated: bool)

  /** Every item passed the checks of the walk: a dotted name of at most 64 bytes, stored or deflated. */
  predicate Accepted(it: Item)
  {
    |it.name| <= NAME_LENGTH && NulFree(it.name) && DOT in it.name && (it.deflated || it.size == it.csize)
  }

  /** What one record of the walk comes to. */
  datatype Step =
    | Keep(item: Item, isWad: bool, next: nat)
    | Skip(next: nat)
      /** The record runs past the directory: the walk ends, keeping what it has. */
    | Stop
      /** A bad central signature: the whole archive is refused. */
    | Fail
      /** The source reads past a buffer or dereferences NULL here. */
    | Crash

  /** The end of the three size fields of a central header. */
  const SIZES_END: nat := 34

  /**
   Where the next central header starts: past the fixed header, the name,
   the extra field and the comment.
   */
  function RecordEnd(dir: seq<byte>, p: nat): (r: nat)
    requires p + SIZES_END <= |dir|
    ensures r >= p + CENTRAL_SIZE
    ensures p + CENTRAL_SIZE <= |dir| ==> var c := DecodeCentral(dir, p);
              r == p + CENTRAL_SIZE + c.nameSize + c.extraSize + c.commentSize
  {
    p + CENTRAL_SIZE + ReadLE16(dir, p + 28) + ReadLE16(dir, p + 30) + ReadLE16(dir, p + 32)
  }

  /**
   One iteration of the walk in `ZipFile::Open`, for the central header at
   `p` of the directory `dir` read out of `data`.
   */
  function RecordStep(data: seq<byte>, dir: seq<byte>, p: nat): (r: Step)
    ensures r.Skip? ==> p < r.next <= |dir|
    ensures r.Keep? ==> p < r.next <= |dir|
    ensures r.Keep? ==> Accepted(r.item)
  {
    if p + 4 > |dir| then Crash
    else if dir[p..p + 4] != PK12 then Fail
    // only the signature and the three sizes are read before the bound test
    else if p + SIZES_END > |dir| then Crash
    else if RecordEnd(dir, p) > |dir| then Stop
    else
      var c := DecodeCentral(dir, p);
      var next := RecordEnd(dir, p);
      // `filename[n_size - 1]`: for an empty name this is the last byte of the header
      if dir[p + CENTRAL_SIZE + c.nameSize - 1] == SLASH then Skip(next)
      else
        var name := CStr(dir[p + CENTRAL_SIZE..p + CENTRAL_SIZE + Min(c.nameSize, NAME_LENGTH)]);
        if FlagCheckFails(c.flags, c.compression, c.size, c.csize) then Skip(next)
        else if c.localOffset + LOCAL_SIZE > |data| then Crash
        else if data[c.localOffset..c.localOffset + 4] != PK34 then Skip(next)
        else
          var l := DecodeLocal(data, c.localOffset);
          if !LocalMatches(c, l) then Skip(next)
          else
            var offset := AddU32(c.localOffset, LOCAL_SIZE + l.nameSize + l.extraSize);
            match Extension(name)
            // `strrchr` found no dot and the code reads through NULL + 1
            case None => Crash
            case Some(ext) =>
              Keep(Item(name, offset, c.csize, c.size, c.compression == Z_DEFLATED),
                   EqualIgnoringCase(ext, WAD_EXT), next)
  }

  /** A kept record passed every check of the walk, and its entry is built from the two headers. */
  lemma KeptRecord(data: seq<byte>, dir: seq<byte>, p: nat)
    requires RecordStep(data, dir, p).Keep?
    ensures p + CENTRAL_SIZE <= |dir|
    ensures var c := DecodeCentral(dir, p);
            var step := RecordStep(data, dir, p);
            && SignatureAt(dir, p, PK12)
            && step.next == p + CENTRAL_SIZE + c.nameSize + c.extraSize + c.commentSize
            && dir[p + CENTRAL_SIZE + c.nameSize - 1] != SLASH
            && !FlagCheckFails(c.flags, c.compression, c.size, c.csize)
            && c.localOffset + LOCAL_SIZE <= |data|
            && SignatureAt(data, c.localOffset, PK34)
            && LocalMatches(c, DecodeLocal(data, c.localOffset))
            && step.item.offset
               == AddU32(c.localOffset, LOCAL_SIZE + DecodeLocal(data, c.localOffset).nameSize
                                        + DecodeLocal(data, c.localOffset).extraSize)
            && step.item.name == CStr(dir[p + CENTRAL_SIZE..p + CENTRAL_SIZE + Min(c.nameSize, NAME_LENGTH)])
            && step.item.csize == c.csize && step.item.size == c.size
            && step.item.deflated == (c.compression == Z_DEFLATED)
            && step.isWad == EqualIgnoringCase(Extension(step.item.name).value, WAD_EXT)
  {
  }

  /**
   A central header whose signature is right but which the directory cuts
   short after its size fields ends the walk: the record reaches past the
   directory, so the loop breaks, keeping the entries before it.
   */
  lemma ShortRecordStops(data: seq<byte>, dir: seq<byte>, p: nat)
    requires SignatureAt(dir, p, PK12) && p + SIZES_END <= |dir| < p + CENTRAL_SIZE
    ensures RecordStep(data, dir, p) == Stop
  {
  }

  /** The walk over such a record opens with no entries from there on. */
  lemma ShortRecordWalkOpens(data: seq<byte>, dir: seq<byte>, total: nat, k: nat, p: nat)
    requires k < total
    requires SignatureAt(dir, p, PK12) && p + SIZES_END <= |dir| < p + CENTRAL_SIZE
    ensures Walk(data, dir, total, k, p) == Opened(Directory([], false))
  {
    ShortRecordStops(data, dir, p);
  }

  /** A directory of one signature and 36 zero bytes opens with no entries. */
  lemma ShortRecordExample(data: seq<byte>, dir: seq<byte>)
    requires dir == PK12 + seq(36, _ => 0)
    ensures Walk(data, dir, 1, 0, 0) == Opened(Directory([], false))
  {
    assert dir[0..4] == PK12;
    ShortRecordWalkOpens(data, dir, 1, 0, 0);
  }

  /** The directory accepted by `ZipFile::Open`, and whether any entry is a `.wad`. */
  datatype Directory = Directory(items: seq<Item>, hasWad: bool)

  /**
   The loop of `ZipFile::Open` from record `k` of `total` on, at directory
   position `p`: the entries it accepts from here, and whether one of them
   is a `.wad`. A bad central signature anywhere refuses the whole archive.
   */
  function Walk(data: seq<byte>, dir: seq<byte>, total: nat, k: nat, p: nat): (r: Opened<Directory>)
    requires k <= total
    ensures r.Opened? ==> |r.dir.items| <= total - k
    ensures r.Opened? ==> forall i | 0 <= i < |r.dir.items| :: Accepted(r.dir.items[i])
    decreases total - k
  {
    if k == total then Opened(Directory([], false))
    else
      match RecordStep(data, dir, p)
      case Crash => Undefined
      case Fail => Rejected
      case Stop => Opened(Directory([], false))
      case Skip(next) => Walk(data, dir, total, k + 1, next)
      case Keep(item, isWad, next) =>
        match Walk(data, dir, total, k + 1, next)
        case Opened(rest) =>
          AcceptedPrepend(item, rest.items);
          Opened(Directory([item] + rest.items, isWad || rest.hasWad))
        case Rejected => Rejected
        case Undefined => Undefined
  }

  lemma AcceptedPrepend(item: Item, rest: seq<Item>)
    requires Accepted(item) && forall i | 0 <= i < |rest| :: Accepted(rest[i])
    ensures forall i | 0 <= i < |rest| + 1 :: Accepted(([item] + rest)[i])
  {
    forall i | 0 <= i < |rest| + 1 ensures Accepted(([item] + rest)[i]) {
      if i > 0 {
        assert ([item] + rest)[i] == rest[i - 1];
      }
    }
  }

  //----------------------------------------------------------------------
  // Opening
  //----------------------------------------------------------------------

  /** The tail of the file that is searched for the EOCD record: `min(size, 256 KiB)` bytes. */
  function SearchWindow(data: seq<byte>): (buf: seq<byte>)
    ensures |buf| == Min(|data|, SEARCH_RANGE)
    ensures buf == data[|data| - |buf|..]
  {
    var m := if |data| > SEARCH_RANGE then SEARCH_RANGE else |data|;
    data[|data| - m..]
  }

  /**
   `ZipFile::Open` after the file has been opened. An empty file fails the
   `fread` of the search window; no EOCD signature, one at file position 0,
   a multi-disk archive, a corrupt directory bound or a bad central
   signature refuse the archive.
   */
  function Open(data: seq<byte>): (r: Opened<Directory>)
    ensures |data| == 0 ==> r.Rejected?
    ensures r.Opened? ==> exists k | 0 <= k <= |SearchWindow(data)| - EOCD_SIZE :: IsEocdAt(SearchWindow(data), k)
    ensures r.Opened? ==> forall i | 0 <= i < |r.dir.items| :: Accepted(r.dir.items[i])
  {
    if |data| == 0 then Rejected
    else
      var buf := SearchWindow(data);
      var pos := EocdPosition(buf, |data|);
      if pos == 0 then Rejected
      else if pos + EOCD_SIZE > |data| then Undefined
      else
        var e := DecodeEocd(data, pos);
        if IsMultiFiles(e) then Rejected
        else if IsCorrupted(pos, e.cdSize, e.cdOffset) then Rejected
        else if e.cdOffset + e.cdSize > |data| then Undefined
        else Walk(data, data[e.cdOffset..e.cdOffset + e.cdSize], e.totalEntries, 0, 0)
  }

  /** The archive opens with at most as many entries as the EOCD record counts. */
  lemma OpenBounded(data: seq<byte>)
    requires Open(data).Opened?
    ensures var pos := EocdPosition(SearchWindow(data), |data|);
            && pos + EOCD_SIZE <= |data|
            && !IsMultiFiles(DecodeEocd(data, pos))
            && |Open(data).dir.items| <= DecodeEocd(data, pos).totalEntries
  {
  }

  /** A multi-disk archive is refused. */
  lemma MultiDiskRefused(data: seq<byte>)
    requires |data| > 0
    requires var pos := EocdPosition(SearchWindow(data), |data|);
             pos != 0 && pos + EOCD_SIZE <= |data| && IsMultiFiles(DecodeEocd(data, pos))
    ensures Open(data).Rejected?
  {
  }

  //----------------------------------------------------------------------
  // Reading an item
  //----------------------------------------------------------------------

  /**
   The inflater: raw DEFLATE data (section 3 of RFC 1951) from the entry's
   start onwards and the expected size; `Some(out)` when it produced output.
   */
  type Inflater = (seq<byte>, nat) -> Option<seq<byte>>

  datatype ZipRead =
    | Read(bytes: seq<byte>)
      /** `I_Error`: the zlib stream could not be decompressed to the expected size. */
    | Fatal
      /** A read past the end of the inflated buffer. */
    | OutOfCache

  /** The file from `pos` on, as the inflate loop reads it in chunks. */
  function StreamFrom(data: seq<byte>, pos: nat): seq<byte>
  {
    if pos < |data| then data[pos..] else []
  }

  /**
   `ZipFile::Internal_ReadItem(item, dest, size, offset)`. A stored entry is a
   plain stream read. A deflated entry is inflated in full and then, unless
   it begins with "IWAD" or "PWAD", nothing is returned.
   */
  function ReadItem(data: seq<byte>, items: seq<Item>, item: int, size: uint32, offset: uint32, inflate: Inflater)
    : (r: ZipRead)
    ensures (item < 0 || item >= |items|) ==> r == Read([])
    ensures 0 <= item < |items| && items[item].size == 0 ==> r == Read([])
    ensures 0 <= item < |items| && !items[item].deflated && items[item].size != 0 ==>
              r == Read(FileRead(data, AddU32(items[item].offset, offset), size))
    ensures r.Read? ==> |r.bytes| <= size
  {
    if item < 0 || item >= |items| then Read([])
    else
      var l := items[item];
      if l.size == 0 then Read([])
      else if !l.deflated then Read(FileRead(data, AddU32(l.offset, offset), size))
      else
        var input := StreamFrom(data, l.offset);
        if |input| == 0 then Fatal
        else match inflate(input, l.size)
          case None => Fatal
          case Some(out) =>
            if |out| != l.size then Fatal
            else if l.size < 4 then OutOfCache
            else if out[..4] != Wad.IWAD && out[..4] != Wad.PWAD then Read([])
            else if offset + size > l.size then OutOfCache
            else Read(out[offset..offset + size])
  }

  /** A deflated entry that is not a WAD reads as nothing, whatever was asked for. */
  lemma DeflatedNonWadReadsNothing(data: seq<byte>, items: seq<Item>, item: nat, size: uint32, offset: uint32,
                                   inflate: Inflater)
    requires item < |items| && items[item].deflated && 4 <= items[item].size
    requires StreamFrom(data, items[item].offset) != []
    requires var out := inflate(StreamFrom(data, items[item].offset), items[item].size);
             out.Some? && |out.value| == items[item].size && out.value[..4] != Wad.IWAD && out.value[..4] != Wad.PWAD
    ensures ReadItem(data, items, item, size, offset, inflate) == Read([])
  {
  }

  /** A deflated WAD inside the bounds of its inflated size reads as the inflated bytes. */
  lemma DeflatedWadReads(data: seq<byte>, items: seq<Item>, item: nat, size: uint32, offset: uint32,
                         inflate: Inflater)
    requires item < |items| && items[item].deflated && 4 <= items[item].size
    requires StreamFrom(data, items[item].offset) != []
    requires var out := inflate(StreamFrom(data, items[item].offset), items[item].size);
             out.Some? && |out.value| == items[item].size && (out.value[..4] == Wad.IWAD || out.value[..4] == Wad.PWAD)
    requires offset + size <= items[item].size
    ensures var out := inflate(StreamFrom(data, items[item].offset), items[item].size).value;
            ReadItem(data, items, item, size, offset, inflate) == Read(out[offset..offset + size])
  {
  }

  //----------------------------------------------------------------------
  // WADs inside the archive
  //----------------------------------------------------------------------

  /** A WAD taken out of the archive, to be registered as a `WadFromMemory`. */
  datatype Nested = Nested(name: seq<byte>, data: seq<byte>, dir: seq<Wad.Lump>)

  datatype NestedLoad =
    | Loaded(wads: seq<Nested>)
    | LoadFatal
    | LoadUndefined

  /** The name selects an entry for the nested loader: a "wad" or "gwa" extension, any case. */
  predicate WadLike(name: seq<byte>)
  {
    Extension(name).Some?
    && (EqualIgnoringCase(Extension(name).value, WAD_EXT) || EqualIgnoringCase(Extension(name).value, GWA_EXT))
  }

  /** What the nested loader does with one entry. */
  datatype Pick =
    | Take(wad: Nested)
    | Pass
    | PickFatal
    | PickUndefined

  /**
   One iteration of `ZipFile::GetItemListFromMemory`: an entry of at least a
   WAD header's size with a "wad" or "gwa" extension is read whole and, when
   the read delivers all of it, opened as a WAD in memory. The magic test
   before the open is always true (`Uint8 isIWAD = -1` is 255, and 255 >= 0).
   */
  function PickNested(data: seq<byte>, items: seq<Item>, i: nat, inflate: Inflater): (r: Pick)
    requires i < |items|
    ensures r.Take? ==> r.wad.name == items[i].name && WadLike(r.wad.name)
    ensures r.Take? ==> |r.wad.data| == items[i].size >= Wad.HEADER_SIZE
    ensures r.Take? ==> Wad.OpenMemory(r.wad.data) == Opened(r.wad.dir)
    ensures r.Take? ==> ReadItem(data, items, i, items[i].size, 0, inflate) == Read(r.wad.data)
  {
    var l := items[i];
    if l.size < Wad.HEADER_SIZE || !WadLike(l.name) then Pass
    else
      match ReadItem(data, items, i, l.size, 0, inflate)
      case Fatal => PickFatal
      case OutOfCache => PickUndefined
      case Read(bytes) =>
        if |bytes| != l.size then Pass
        else
          match Wad.OpenMemory(bytes)
          case Undefined => PickUndefined
          case Opened(dir) => Take(Nested(l.name, bytes, dir))
  }

  /** A WAD the loader took: a WAD-like name, a header, and the directory its bytes open to. */
  predicate Taken(w: Nested)
  {
    WadLike(w.name) && |w.data| >= Wad.HEADER_SIZE && Wad.OpenMemory(w.data) == Opened(w.dir)
  }

  /** Every WAD in the list was taken. */
  predicate AllTaken(wads: seq<Nested>)
  {
    |wads| == 0 || (Taken(wads[0]) && AllTaken(wads[1..]))
  }

  /** The nested loader from item `i` on: the WADs it registers, in entry order. */
  function LoadNested(data: seq<byte>, items: seq<Item>, i: nat, inflate: Inflater): (r: NestedLoad)
    requires i <= |items|
    ensures r.Loaded? ==> |r.wads| <= |items| - i && AllTaken(r.wads)
    decreases |items| - i
  {
    if i == |items| then Loaded([])
    else
      var rest := LoadNested(data, items, i + 1, inflate);
      match PickNested(data, items, i, inflate)
      case PickFatal => LoadFatal
      case PickUndefined => LoadUndefined
      case Pass => rest
      case Take(w) =>
        if rest.Loaded? then
          assert ([w] + rest.wads)[1..] == rest.wads;
          Loaded([w] + rest.wads)
        else rest
  }

  /** A stored WAD entry that lies inside the file is always taken out whole. */
  lemma StoredWadLoaded(data: seq<byte>, items: seq<Item>, i: nat, inflate: Inflater)
    requires i < |items|
    requires StoredWad(data, items[i])
    requires LoadNested(data, items, i + 1, inflate).Loaded?
    ensures var r := LoadNested(data, items, i, inflate);
            r.Loaded? && |r.wads| > 0 && r.wads[0].data == data[items[i].offset..items[i].offset + items[i].size]
  {
    StoredWadTaken(data, items, i, inflate);
    var w := PickNested(data, items, i, inflate).wad;
    var rest := LoadNested(data, items, i + 1, inflate);
    assert LoadNested(data, items, i, inflate) == Loaded([w] + rest.wads);
  }

  /** A stored WAD entry inside the file whose directory fits. */
  predicate StoredWad(data: seq<byte>, l: Item)
  {
    !l.deflated && l.size >= Wad.HEADER_SIZE && WadLike(l.name) && l.offset + l.size <= |data|
    && Wad.MemoryDirectoryFits(data[l.offset..l.offset + l.size])
  }

  /** Such an entry is read whole and taken. */
  lemma StoredWadTaken(data: seq<byte>, items: seq<Item>, i: nat, inflate: Inflater)
    requires i < |items| && StoredWad(data, items[i])
    ensures PickNested(data, items, i, inflate).Take?
    ensures PickNested(data, items, i, inflate).wad.data == data[items[i].offset..items[i].offset + items[i].size]
  {
    var l := items[i];
    var bytes := data[l.offset..l.offset + l.size];
    ReadStored(data, items, i, inflate);
    assert Wad.OpenMemory(bytes).Opened?;
  }

  /** A stored entry that lies inside the file is read whole from its offset. */
  lemma ReadStored(data: seq<byte>, items: seq<Item>, i: nat, inflate: Inflater)
    requires i < |items| && !items[i].deflated && items[i].size != 0
    requires items[i].offset + items[i].size <= |data|
    ensures ReadItem(data, items, i, items[i].size, 0, inflate) == Read(data[items[i].offset..items[i].offset + items[i].size])
  {
    var l := items[i];
    assert AddU32(l.offset, 0) == l.offset;
    assert FileRead(data, l.offset, l.size) == data[l.offset..l.offset + l.size];
  }
}
