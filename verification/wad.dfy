/**
 IWAD/PWAD archives (`Wad` on disk, `WadFromMemory` for a WAD found inside a
 ZIP): the 12-byte header, the directory of 16-byte records, the 8-byte lump
 name search, the 4-byte partial search and the item reads.

 A runtime directory entry keeps its 8-byte name together with the two
 32-bit words the search compares (`iname[0]`, `iname[1]` of the C union).
 For a disk WAD those words are the name's own bytes read little-endian. A
 memory WAD recomputes them from `char` values and writes them back over the
 name they share storage with; on a little-endian host with signed `char`,
 a byte >= 0x80 turns the rest of its 4-byte group into 0xFF bytes, in the
 words and in the name alike.
 */
module Wad {
  import opened Bytes
  import opened CStrings
  import opened Tables
  import opened Storage

  const HEADER_SIZE: nat := 12
  const ENTRY_SIZE: nat := 16
  const NAME_SIZE: nat := 8

  /** `int` in the source: values from 2^31 up are negative there. */
  const INT_LIMIT: nat := 0x8000_0000

  /** A directory record as stored in the file (`waddir_file_t`). */
  datatype Entry = Entry(offset: uint32, size: uint32, name: seq<byte>)

  /** The two 32-bit words the name search compares. */
  datatype Key = Key(lo: uint32, hi: uint32)

  /** The 8 bytes of a lump name field. */
  type Name = s: seq<byte> | |s| == NAME_SIZE witness [0, 0, 0, 0, 0, 0, 0, 0]

  /** A runtime directory entry (`waddir_t`): `name` holds the 8 bytes before the terminating NUL. */
  datatype Lump = Lump(offset: uint32, size: uint32, name: Name, key: Key)

  function DecodeEntry(rec: seq<byte>): (e: Entry)
    requires |rec| == ENTRY_SIZE
    ensures |e.name| == NAME_SIZE
  {
    Entry(ReadLE32(rec, 0), ReadLE32(rec, 4), rec[8..16])
  }

  function EncodeEntry(e: Entry): (r: seq<byte>)
    ensures |r| == ENTRY_SIZE
  {
    LE32Bytes(e.offset) + LE32Bytes(e.size) + Field(e.name, NAME_SIZE)
  }

  /** Decoding a written record gives it back whenever its name fills the 8-byte field. */
  lemma DecodeEncodeEntry(e: Entry)
    requires |e.name| == NAME_SIZE
    ensures DecodeEntry(EncodeEntry(e)) == e
  {
    var a, b := LE32Bytes(e.offset), LE32Bytes(e.size);
    var r := EncodeEntry(e);
    assert r == a + b + e.name;
    assert ReadLE32(r, 0) == e.offset by {
      ReadLE32Encode(e.offset, [], b + e.name);
      assert r == [] + a + (b + e.name);
    }
    assert ReadLE32(r, 4) == e.size by {
      ReadLE32Encode(e.size, a, e.name);
    }
    assert r[8..16] == e.name;
  }

  /** The words of an 8-byte name as the C union overlays them. */
  function NameKey(name: seq<byte>): Key
    requires |name| >= NAME_SIZE
  {
    Key(ReadLE32(name, 0), ReadLE32(name, 4))
  }

  /** Two names have the same words exactly when their 8 bytes agree. */
  lemma NameKeyInjective(a: seq<byte>, b: seq<byte>)
    requires |a| == NAME_SIZE && |b| == NAME_SIZE
    ensures NameKey(a) == NameKey(b) <==> a == b
  {
    ReadLE32Injective(a, 0, b, 0);
    ReadLE32Injective(a, 4, b, 4);
    if NameKey(a) == NameKey(b) {
      assert a[0..4] == b[0..4] && a[4..8] == b[4..8];
      forall k | 0 <= k < NAME_SIZE ensures a[k] == b[k] {
        if k < 4 {
          assert a[k] == a[0..4][k];
        } else {
          assert a[k] == a[4..8][k - 4];
        }
      }
    }
  }

  /** The entry's search words are its name's bytes, as on a disk WAD. */
  predicate Coherent(l: Lump)
  {
    l.key == NameKey(l.name)
  }

  //----------------------------------------------------------------------
  // The `char`-based word assembly of WadFromMemory::Open
  //----------------------------------------------------------------------

  /** `(Uint32)c` for a plain `char` c holding `b`: a signed char sign-extends. */
  function SignExtend(b: byte): (r: uint32)
    ensures b < 0x80 ==> r == b
    ensures b >= 0x80 ==> r >= 0xFFFF_FF80
  {
    if b < 0x80 then b else b + 0xFFFF_FF00
  }

  /** A `Uint32` shift result: bits shifted out above bit 31 are lost. */
  function Wrap32(x: nat): uint32
  {
    x % TWO32
  }

  /**
   `(Uint32)name[off] | ((Uint32)name[off+1] << 8) | ((Uint32)name[off+2] << 16)
   | ((Uint32)name[off+3] << 24)` with signed `char`.
   */
  function CharWord(name: seq<byte>, off: nat): (r: uint32)
    requires off + 4 <= |name|
  {
    var c0, c1, c2, c3 := SignExtend(name[off]), SignExtend(name[off + 1]),
                          SignExtend(name[off + 2]), SignExtend(name[off + 3]);
    Pow2Of32();
    var w1, w2, w3 := Wrap32(Shl(c1, 8)), Wrap32(Shl(c2, 16)), Wrap32(Shl(c3, 24));
    OrBounds(c0, w1, 32);
    OrBounds(Or(c0, w1), w2, 32);
    OrBounds(Or(Or(c0, w1), w2), w3, 32);
    Or(Or(Or(c0, w1), w2), w3)
  }

  /** Bytes below 0x80 are not disturbed: the word is the little-endian value. */
  lemma CharWordOfAscii(name: seq<byte>, off: nat)
    requires off + 4 <= |name|
    requires forall k | off <= k < off + 4 :: name[k] < 0x80
    ensures CharWord(name, off) == ReadLE32(name, off)
  {
    var b0, b1, b2, b3 := name[off], name[off + 1], name[off + 2], name[off + 3];
    LaneWidths();
    assert SignExtend(b0) == b0 && SignExtend(b1) == b1 && SignExtend(b2) == b2 && SignExtend(b3) == b3;
    assert Wrap32(Shl(b1, 8)) == Shl(b1, 8);
    assert Wrap32(Shl(b2, 16)) == Shl(b2, 16);
    assert Wrap32(Shl(b3, 24)) == Shl(b3, 24);
    ReadLE32IsOr(name, off);
  }

  /** A leading byte >= 0x80 sets every upper bit of the word. */
  lemma CharWordOfHighByte(name: seq<byte>, off: nat)
    requires off + 4 <= |name|
    requires name[off] >= 0x80
    ensures CharWord(name, off) >= 0xFFFF_FF80
  {
    var c0 := SignExtend(name[off]);
    Pow2Of32();
    var w1, w2, w3 := Wrap32(Shl(SignExtend(name[off + 1]), 8)), Wrap32(Shl(SignExtend(name[off + 2]), 16)),
                      Wrap32(Shl(SignExtend(name[off + 3]), 24));
    OrBounds(c0, w1, 32);
    OrBounds(Or(c0, w1), w2, 32);
    OrBounds(Or(Or(c0, w1), w2), w3, 32);
  }

  /** ... so such a name gets a word the query spelled like the stored name does not produce when its fourth byte is not 0xFF. */
  lemma HighByteBreaksKey(name: seq<byte>)
    requires |name| == NAME_SIZE
    requires name[0] >= 0x80 && name[3] < 0xFF
    ensures CharWord(name, 0) != ReadLE32(name, 0)
  {
    CharWordOfHighByte(name, 0);
  }

  /** The byte a sign-extended `char` spreads over the lanes above its own. */
  function Fill(b: byte): byte
  {
    if b >= 0x80 then 0xFF else 0
  }

  /** The four bytes of a word assembled from sign-extended `char`s, group by group. */
  function Smear4(b0: byte, b1: byte, b2: byte, b3: byte): seq<byte>
  {
    [b0,
     if b0 >= 0x80 then 0xFF else b1,
     if b0 >= 0x80 || b1 >= 0x80 then 0xFF else b2,
     if b0 >= 0x80 || b1 >= 0x80 || b2 >= 0x80 then 0xFF else b3]
  }

  lemma SignExtendLanes(b: byte)
    ensures SignExtend(b) == ReadLE32([b, Fill(b), Fill(b), Fill(b)], 0)
  {
  }

  lemma ShiftLanes(b: byte)
    ensures Wrap32(Shl(SignExtend(b), 8)) == ReadLE32([0, b, Fill(b), Fill(b)], 0)
    ensures Wrap32(Shl(SignExtend(b), 16)) == ReadLE32([0, 0, b, Fill(b)], 0)
    ensures Wrap32(Shl(SignExtend(b), 24)) == ReadLE32([0, 0, 0, b], 0)
  {
    LaneWidths();
    var c: nat := SignExtend(b);
    if b >= 0x80 {
      WrapMultiple(Shl(c, 8), 0x100 * b + 0xFFFF_0000, 0xFF);
      WrapMultiple(Shl(c, 16), 0x1_0000 * b + 0xFF00_0000, 0xFFFF);
      WrapMultiple(Shl(c, 24), 0x100_0000 * b, 0xFF_FFFF);
    } else {
      WrapMultiple(Shl(c, 8), 0x100 * b, 0);
      WrapMultiple(Shl(c, 16), 0x1_0000 * b, 0);
      WrapMultiple(Shl(c, 24), 0x100_0000 * b, 0);
    }
  }

  /** A value `m` whole turns of 2^32 above `r` wraps to `r`. */
  lemma WrapMultiple(x: nat, r: nat, m: nat)
    requires r < TWO32 && x == r + m * TWO32
    ensures Wrap32(x) == r
  {
  }

  /** The word `WadFromMemory::Open` assembles is the little-endian value of the smeared group. */
  lemma CharWordLanes(name: seq<byte>, off: nat)
    requires off + 4 <= |name|
    ensures CharWord(name, off) == ReadLE32(Smear4(name[off], name[off + 1], name[off + 2], name[off + 3]), 0)
  {
    var b0, b1, b2, b3 := name[off], name[off + 1], name[off + 2], name[off + 3];
    var f0, f1, f2 := Fill(b0), Fill(b1), Fill(b2);
    SignExtendLanes(b0);
    ShiftLanes(b1);
    ShiftLanes(b2);
    ShiftLanes(b3);
    var l0, l1, l2, l3 := [b0, f0, f0, f0], [0, b1, f1, f1], [0, 0, b2, f2], [0, 0, 0, b3];
    OrByteUnits(b0);
    OrByteUnits(b1);
    OrByteUnits(b2);
    OrByteUnits(b3);
    OrByteUnits(f1);
    OrByteUnits(f2);
    OrByLanes(l0, l1);
    var m1 := [b0, OrByte(f0, b1), OrByte(f0, f1), OrByte(f0, f1)];
    OrByteUnits(m1[1]);
    OrByteUnits(m1[2]);
    OrByLanes(m1, l2);
    var m2 := [b0, m1[1], OrByte(m1[2], b2), OrByte(m1[2], f2)];
    OrByteUnits(m2[3]);
    OrByLanes(m2, l3);
    var m3 := [b0, m1[1], m2[2], OrByte(m2[3], b3)];
    assert m3 == Smear4(b0, b1, b2, b3);
  }

  /** The name `WadFromMemory::Open` leaves behind: each 4-byte group smeared (see `SmearAt`). */
  function Smear(name: Name): (r: Name)
  {
    Smear4(name[0], name[1], name[2], name[3]) + Smear4(name[4], name[5], name[6], name[7])
  }

  /**
   Byte `k` of a smeared name is 0xFF once an earlier byte of its 4-byte
   group is 0x80 or above, and the name's own byte otherwise.
   */
  lemma SmearAt(name: Name, k: nat)
    requires k < NAME_SIZE
    ensures Smear(name)[k] == if exists j | 0 <= j < k && j / 4 == k / 4 :: name[j] >= 0x80 then 0xFF else name[k]
  {
    assert k / 4 == 0 || k / 4 == 1;
  }

  /** A name of bytes below 0x80 is left as it is. */
  lemma SmearOfAscii(name: Name)
    requires forall k | 0 <= k < NAME_SIZE :: name[k] < 0x80
    ensures Smear(name) == name
  {
  }

  //----------------------------------------------------------------------
  // Opening
  //----------------------------------------------------------------------

  datatype Header = Header(magic: seq<byte>, numEntries: uint32, dirOffset: uint32)

  function DecodeHeader(data: seq<byte>): (h: Header)
    requires |data| >= HEADER_SIZE
    ensures |h.magic| == 4
  {
    Header(data[0..4], ReadLE32(data, 4), ReadLE32(data, 8))
  }

  /**
   Where a file's directory is read from. `diroffset` is an `int`: a
   negative one makes `fseek` fail, and the stream stays just after the
   header it has read.
   */
  function DirectoryStart(dirOffset: uint32): (r: nat)
    ensures dirOffset < INT_LIMIT ==> r == dirOffset
    ensures dirOffset >= INT_LIMIT ==> r == HEADER_SIZE
  {
    if dirOffset < INT_LIMIT then dirOffset else HEADER_SIZE
  }

  /**
   The entry count survives its conversion to `int`, and the directory is
   empty or lies inside the file from where it is read. Otherwise the source
   reads file contents it never wrote.
   */
  predicate DirectoryFits(data: seq<byte>)
    requires |data| >= HEADER_SIZE
  {
    RecordsFit(data, ENTRY_SIZE)
  }

  /** The same test for the WAD2/WAD3 directory, whose records are `width` bytes. */
  predicate RecordsFit(data: seq<byte>, width: nat)
    requires |data| >= HEADER_SIZE
  {
    var h := DecodeHeader(data);
    h.numEntries < INT_LIMIT
    && (h.numEntries == 0 || DirectoryStart(h.dirOffset) + h.numEntries * width <= |data|)
  }

  /**
   The test for a WAD in memory, which copies from `data + diroffset`: a
   directory that is not empty must lie inside the buffer at that offset.
   */
  predicate MemoryDirectoryFits(data: seq<byte>)
    requires |data| >= HEADER_SIZE
  {
    var h := DecodeHeader(data);
    h.numEntries < INT_LIMIT
    && (h.numEntries == 0 || (h.dirOffset < INT_LIMIT && h.dirOffset + h.numEntries * ENTRY_SIZE <= |data|))
  }

  /** The NUL-padding repair and the `strncpy` into the 9-byte runtime name. */
  function StoredName(raw: seq<byte>): (r: Name)
    requires |raw| == NAME_SIZE
    ensures forall k | 0 <= k < NAME_SIZE :: r[k] == NUL || r[k] == raw[k]
  {
    Strncpy(ZeroAfterNul(raw), NAME_SIZE)
  }

  function DiskLump(e: Entry): (l: Lump)
    requires |e.name| == NAME_SIZE
  {
    var name := StoredName(e.name);
    Lump(e.offset, e.size, name, NameKey(name))
  }

  /** The words are computed from the stored name and then written over it. */
  function MemoryLump(e: Entry): (l: Lump)
    requires |e.name| == NAME_SIZE
  {
    var name := StoredName(e.name);
    var lo, hi := CharWord(name, 0), CharWord(name, 4);
    Lump(e.offset, e.size, LE32Bytes(lo) + LE32Bytes(hi), Key(lo, hi))
  }

  /**
   A lump read into memory keeps its offset and size, its words are its name's
   bytes, and its name is the stored name smeared group by group.
   */
  lemma MemoryLumpSmeared(e: Entry)
    requires |e.name| == NAME_SIZE
    ensures Coherent(MemoryLump(e))
    ensures MemoryLump(e).name == Smear(StoredName(e.name))
    ensures MemoryLump(e).offset == e.offset && MemoryLump(e).size == e.size
  {
    var name := StoredName(e.name);
    WordsOverName(CharWord(name, 0), CharWord(name, 4));
    SmearedName(name);
  }

  /** Two words written over an 8-byte name read back as those words. */
  lemma WordsOverName(lo: uint32, hi: uint32)
    ensures NameKey(LE32Bytes(lo) + LE32Bytes(hi)) == Key(lo, hi)
  {
    ReadLE32Encode(lo, [], LE32Bytes(hi));
    ReadLE32Encode(hi, LE32Bytes(lo), []);
    assert LE32Bytes(lo) + LE32Bytes(hi) == [] + LE32Bytes(lo) + LE32Bytes(hi);
    assert LE32Bytes(lo) + LE32Bytes(hi) == LE32Bytes(lo) + LE32Bytes(hi) + [];
  }

  /** The bytes of the two words assembled from a name are the smeared name. */
  lemma SmearedName(name: Name)
    ensures LE32Bytes(CharWord(name, 0)) + LE32Bytes(CharWord(name, 4)) == Smear(name)
  {
    var a := Smear4(name[0], name[1], name[2], name[3]);
    var b := Smear4(name[4], name[5], name[6], name[7]);
    assert LE32Bytes(CharWord(name, 0)) == a by {
      WordBytes(name, 0);
    }
    assert LE32Bytes(CharWord(name, 4)) == b by {
      WordBytes(name, 4);
    }
  }

  lemma WordBytes(name: seq<byte>, off: nat)
    requires off + 4 <= |name|
    ensures LE32Bytes(CharWord(name, off)) == Smear4(name[off], name[off + 1], name[off + 2], name[off + 3])
  {
    var s := Smear4(name[off], name[off + 1], name[off + 2], name[off + 3]);
    CharWordLanes(name, off);
    EncodeReadLE32(s, 0);
    assert s[0..4] == s;
  }

  function Entries(data: seq<byte>): (r: seq<Entry>)
    requires |data| >= HEADER_SIZE && DirectoryFits(data)
    ensures |r| == DecodeHeader(data).numEntries
    ensures forall i | 0 <= i < |r| :: |r[i].name| == NAME_SIZE
  {
    var h := DecodeHeader(data);
    if h.numEntries == 0 then []
    else
      var start := DirectoryStart(h.dirOffset);
      var r := DecodeTable(data, start, h.numEntries, ENTRY_SIZE, DecodeEntry);
      assert forall i | 0 <= i < |r| :: |r[i].name| == NAME_SIZE by {
        forall i | 0 <= i < |r| ensures |r[i].name| == NAME_SIZE {
          DecodeTableAt(data, start, h.numEntries, ENTRY_SIZE, DecodeEntry, i);
        }
      }
      r
  }

  /**
   `Wad::Open` after the file has been opened: it checks neither the magic
   nor the directory bounds, so every file of at least a header whose
   directory is empty or fits opens, and anything else reads what was never
   written.
   */
  function OpenDisk(data: seq<byte>): (r: Opened<seq<Lump>>)
    ensures !r.Rejected?
    ensures r.Opened? <==> |data| >= HEADER_SIZE && DirectoryFits(data)
    ensures r.Opened? ==> |r.dir| == DecodeHeader(data).numEntries
    ensures r.Opened? ==> forall i | 0 <= i < |r.dir| :: Coherent(r.dir[i])
    ensures r.Opened? ==> forall i | 0 <= i < |r.dir| :: !HasGarbageAfterNul(r.dir[i].name)
  {
    if |data| < HEADER_SIZE || !DirectoryFits(data) then Undefined
    else
      var es := Entries(data);
      var dir := seq(|es|, i requires 0 <= i < |es| => DiskLump(es[i]));
      forall i | 0 <= i < |dir| ensures !HasGarbageAfterNul(dir[i].name) {
        DiskLumpClean(es[i]);
      }
      Opened(dir)
  }

  /** A lump read from disk has a coherent key and a clean name. */
  lemma DiskLumpClean(e: Entry)
    requires |e.name| == NAME_SIZE
    ensures Coherent(DiskLump(e)) && !HasGarbageAfterNul(DiskLump(e).name)
  {
    StrncpyOfRepaired(e.name);
    ZeroAfterNulIdempotent(e.name);
  }

  /**
   `WadFromMemory::Open`: a buffer shorter than a header is rejected; the
   magic test cannot reject anything, because the tag it sets is a `Uint8`
   initialised to -1 (that is, 255) and then compared with the `int` -1.
   */
  function OpenMemory(data: seq<byte>): (r: Opened<seq<Lump>>)
    ensures r.Rejected? <==> |data| < HEADER_SIZE
    ensures r.Opened? <==> |data| >= HEADER_SIZE && MemoryDirectoryFits(data)
    ensures r.Opened? ==> |r.dir| == DecodeHeader(data).numEntries
    ensures r.Opened? ==> OpenDisk(data).Opened? && |OpenDisk(data).dir| == |r.dir|
    ensures r.Opened? ==> forall i | 0 <= i < |r.dir| ::
              && Coherent(r.dir[i])
              && r.dir[i].offset == OpenDisk(data).dir[i].offset
              && r.dir[i].size == OpenDisk(data).dir[i].size
              && r.dir[i].name == Smear(OpenDisk(data).dir[i].name)
  {
    if |data| < HEADER_SIZE then Rejected
    else
      var tag: byte := MagicTag(data[0..4]);
      if tag as int == -1 then Rejected
      else if !MemoryDirectoryFits(data) then Undefined
      else
        var es := Entries(data);
        var dir := seq(|es|, i requires 0 <= i < |es| => MemoryLump(es[i]));
        var disk := DiskDirectory(data);
        forall i | 0 <= i < |dir|
          ensures Coherent(dir[i]) && dir[i].offset == disk[i].offset && dir[i].size == disk[i].size
                  && dir[i].name == Smear(disk[i].name)
        {
          MemoryLumpSmeared(es[i]);
        }
        Opened(dir)
  }

  /** What a disk WAD of the same bytes opens to, when the memory variant's directory fits. */
  function DiskDirectory(data: seq<byte>): (d: seq<Lump>)
    requires |data| >= HEADER_SIZE && MemoryDirectoryFits(data)
    ensures OpenDisk(data) == Opened(d)
    ensures |d| == |Entries(data)|
    ensures forall i | 0 <= i < |d| :: d[i] == DiskLump(Entries(data)[i])
  {
    OpenDisk(data).dir
  }

  /** The `isIWAD` tag: 0 for "IWAD", 1 for "PWAD", and the 255 it started as otherwise. */
  function MagicTag(magic: seq<byte>): (r: byte)
    ensures r == 0 <==> magic == IWAD
    ensures r == 1 <==> magic == PWAD
  {
    if magic == PWAD then 1 else if magic == IWAD then 0 else 255
  }

  const IWAD: seq<byte> := [0x49, 0x57, 0x41, 0x44]
  const PWAD: seq<byte> := [0x50, 0x57, 0x41, 0x44]

  /**
   The magic never decides: whatever it is, a memory WAD whose directory
   offset is a valid `int` opens exactly when a disk WAD of the same bytes would.
   */
  lemma MemoryMagicNeverRejects(data: seq<byte>)
    requires |data| >= HEADER_SIZE
    ensures !OpenMemory(data).Rejected?
    ensures DecodeHeader(data).dirOffset < INT_LIMIT ==> OpenMemory(data).Opened? == OpenDisk(data).Opened?
    ensures data[0..4] != IWAD && data[0..4] != PWAD && MemoryDirectoryFits(data) ==> OpenMemory(data).Opened?
  {
  }

  /** Entry `i` of the decoded directory is the record at the directory's start + 16 i. */
  lemma EntriesAt(data: seq<byte>, i: nat)
    requires |data| >= HEADER_SIZE && DirectoryFits(data)
    requires i < DecodeHeader(data).numEntries
    ensures var at := DirectoryStart(DecodeHeader(data).dirOffset) + ENTRY_SIZE * i;
            && at + ENTRY_SIZE <= |data|
            && Entries(data)[i] == DecodeEntry(data[at..at + ENTRY_SIZE])
  {
    var h := DecodeHeader(data);
    var start := DirectoryStart(h.dirOffset);
    var at := start + ENTRY_SIZE * i;
    assert at + ENTRY_SIZE <= |data| && Entries(data)[i] == DecodeEntry(data[at..at + ENTRY_SIZE]) by {
      DecodeTableAt(data, start, h.numEntries, ENTRY_SIZE, DecodeEntry, i);
      assert i * ENTRY_SIZE == ENTRY_SIZE * i;
    }
  }

  /** Entry `i` of an opened disk WAD is record `i` of the directory, its name repaired. */
  lemma OpenDiskEntry(data: seq<byte>, i: nat)
    requires OpenDisk(data).Opened? && i < |OpenDisk(data).dir|
    ensures var at := DirectoryStart(DecodeHeader(data).dirOffset) + ENTRY_SIZE * i;
            && at + ENTRY_SIZE <= |data|
            && OpenDisk(data).dir[i].offset == ReadLE32(data, at)
            && OpenDisk(data).dir[i].size == ReadLE32(data, at + 4)
            && OpenDisk(data).dir[i].name == ZeroAfterNul(data[at + 8..at + 16])
  {
    EntriesAt(data, i);
    var at := DirectoryStart(DecodeHeader(data).dirOffset) + ENTRY_SIZE * i;
    var rec := data[at..at + ENTRY_SIZE];
    var e := Entries(data)[i];
    assert OpenDisk(data).dir[i] == DiskLump(e);
    assert e.offset == ReadLE32(rec, 0) == ReadLE32(data, at);
    assert e.size == ReadLE32(rec, 4) == ReadLE32(data, at + 4);
    assert e.name == rec[8..16] == data[at + 8..at + 16];
    StrncpyOfRepaired(e.name);
  }

  /** A name of plain ASCII bytes gets the same name and words in both variants. */
  lemma MemoryLumpOfAscii(e: Entry)
    requires |e.name| == NAME_SIZE
    requires forall k | 0 <= k < NAME_SIZE :: e.name[k] < 0x80
    ensures MemoryLump(e) == DiskLump(e)
  {
    var name := StoredName(e.name);
    MemoryLumpSmeared(e);
    SmearOfAscii(name);
  }

  /** With names of plain ASCII bytes the memory variant builds the very same directory. */
  lemma OpenMemoryOfAscii(data: seq<byte>)
    requires |data| >= HEADER_SIZE && MemoryDirectoryFits(data)
    requires forall i | 0 <= i < |Entries(data)| :: forall k | 0 <= k < NAME_SIZE :: Entries(data)[i].name[k] < 0x80
    ensures OpenMemory(data) == OpenDisk(data)
  {
    var es := Entries(data);
    var mem := seq(|es|, i requires 0 <= i < |es| => MemoryLump(es[i]));
    var disk := seq(|es|, i requires 0 <= i < |es| => DiskLump(es[i]));
    forall i | 0 <= i < |es| ensures mem[i] == disk[i] {
      MemoryLumpOfAscii(es[i]);
    }
    assert mem == disk;
  }

  /**
   Byte `k` of a memory lump's name: 0xFF once an earlier byte of its 4-byte
   group is 0x80 or above, otherwise the stored byte.
   */
  lemma MemoryNameAt(e: Entry, k: nat)
    requires |e.name| == NAME_SIZE && k < NAME_SIZE
    ensures var n := StoredName(e.name);
            MemoryLump(e).name[k] == if exists j | 0 <= j < k && j / 4 == k / 4 :: n[j] >= 0x80 then 0xFF else n[k]
  {
    MemoryLumpSmeared(e);
    SmearAt(StoredName(e.name), k);
  }

  /** The entry "\x80ABCDEFG" of a WAD in a ZIP is registered as "\x80\xFF\xFF\xFFDEFG". */
  lemma MemoryLumpHighByteExample(e: Entry)
    requires e.name == [0x80, 0x41, 0x42, 0x43, 0x44, 0x45, 0x46, 0x47]
    ensures MemoryLump(e).name == [0x80, 0xFF, 0xFF, 0xFF, 0x44, 0x45, 0x46, 0x47]
  {
    StoredNameOfNulFree(e.name);
    MemoryLumpSmeared(e);
  }

  /** A name with no NUL is stored as it is. */
  lemma StoredNameOfNulFree(raw: seq<byte>)
    requires |raw| == NAME_SIZE && NulFree(raw)
    ensures StoredName(raw) == raw
  {
    ZeroAfterNulOfNulFree(raw);
    StrncpyOfRepaired(raw);
  }

  /**
   `Wad::Create(fname, lumpname)`, the wrapper for a `.deh` or `.lmp` file: one
   lump covering the whole file, named by `strncpy` of `lumpName` into 8 bytes.
   */
  function CreateSingle(fileSize: uint32, lumpName: seq<byte>): (dir: seq<Lump>)
    ensures |dir| == 1 && dir[0].offset == 0 && dir[0].size == fileSize
    ensures CStr(dir[0].name) == CStr(lumpName)[..Min(NAME_SIZE, NulIndex(lumpName))]
    ensures Coherent(dir[0])
  {
    var name := Strncpy(lumpName, NAME_SIZE);
    StrncpyCStr(lumpName, NAME_SIZE);
    [Lump(0, fileSize, name, NameKey(name))]
  }

  /** A single-lump wrapper is found under its own name when that name has no lower-case letter. */
  lemma CreateSingleFound(fileSize: uint32, lumpName: seq<byte>)
    requires forall k | 0 <= k < |lumpName| :: !IsLowerLetter(lumpName[k])
    ensures FindNumForName(CreateSingle(fileSize, lumpName), lumpName, 0) == 0
  {
    var dir := CreateSingle(fileSize, lumpName);
    var name := Strncpy(lumpName, NAME_SIZE);
    StrncpyKeepsUpper(lumpName, NAME_SIZE);
    UpperAllOfUpper(name);
    assert dir[0].key == NameKey(QueryKey(lumpName));
  }

  lemma StrncpyKeepsUpper(src: seq<byte>, n: nat)
    requires forall k | 0 <= k < |src| :: !IsLowerLetter(src[k])
    ensures forall k | 0 <= k < n :: !IsLowerLetter(Strncpy(src, n)[k])
  {
    var r := Strncpy(src, n);
    forall k | 0 <= k < n ensures !IsLowerLetter(r[k]) {
      if k < NulIndex(src) {
        assert r[k] == src[k];
      } else {
        assert r[k] == NUL;
      }
    }
  }

  lemma UpperAllOfUpper(s: seq<byte>)
    requires forall k | 0 <= k < |s| :: !IsLowerLetter(s[k])
    ensures UpperAll(s) == s
  {
  }

  //----------------------------------------------------------------------
  // Writing a WAD image
  //----------------------------------------------------------------------

  /** A WAD image whose directory follows the header directly. */
  function Image(magic: seq<byte>, entries: seq<Entry>): (r: seq<byte>)
    requires |entries| < INT_LIMIT
  {
    Field(magic, 4) + LE32Bytes(|entries|) + LE32Bytes(HEADER_SIZE) + EncodeTable(entries, EncodeEntry)
  }

  /** A NUL-padded 8-byte name, as the directory format requires. */
  predicate WellFormedEntry(e: Entry)
  {
    |e.name| == NAME_SIZE && ZeroAfterNul(e.name) == e.name
  }

  /** Opening a written image gives the written directory back, whatever the magic. */
  lemma OpenDiskImage(magic: seq<byte>, entries: seq<Entry>)
    requires |entries| < INT_LIMIT
    requires forall i | 0 <= i < |entries| :: WellFormedEntry(entries[i])
    ensures OpenDisk(Image(magic, entries)).Opened?
    ensures |OpenDisk(Image(magic, entries)).dir| == |entries|
    ensures forall i | 0 <= i < |entries| ::
              var l := OpenDisk(Image(magic, entries)).dir[i];
              l.offset == entries[i].offset && l.size == entries[i].size && l.name == entries[i].name
  {
    var img := Image(magic, entries);
    ImageEntries(magic, entries);
    var es := Entries(img);
    forall i | 0 <= i < |entries| ensures DiskLump(es[i]).name == entries[i].name {
      StrncpyOfRepaired(entries[i].name);
    }
  }

  /** The header of a written image points at its table, and the table reads back whole. */
  lemma ImageEntries(magic: seq<byte>, entries: seq<Entry>)
    requires |entries| < INT_LIMIT
    requires forall i | 0 <= i < |entries| :: WellFormedEntry(entries[i])
    ensures |Image(magic, entries)| >= HEADER_SIZE && DirectoryFits(Image(magic, entries))
    ensures Entries(Image(magic, entries)) == entries
  {
    var img := Image(magic, entries);
    var body := EncodeTable(entries, EncodeEntry);
    var head := Field(magic, 4) + LE32Bytes(|entries|) + LE32Bytes(HEADER_SIZE);
    ReadLE32Encode(|entries|, Field(magic, 4), LE32Bytes(HEADER_SIZE) + body);
    assert img == Field(magic, 4) + LE32Bytes(|entries|) + (LE32Bytes(HEADER_SIZE) + body);
    ReadLE32Encode(HEADER_SIZE, Field(magic, 4) + LE32Bytes(|entries|), body);
    forall i | 0 <= i < |entries| ensures DecodeEntry(EncodeEntry(entries[i])) == entries[i] {
      DecodeEncodeEntry(entries[i]);
    }
    DecodeEncodeTable(entries, EncodeEntry, DecodeEntry, ENTRY_SIZE, head, []);
    assert img == head + body + [];
  }

  //----------------------------------------------------------------------
  // Search
  //----------------------------------------------------------------------

  /** The query as the search sees it: `strncpy` to 8 bytes, NUL-terminated, `strupr`. */
  function QueryKey(query: seq<byte>): (r: seq<byte>)
    ensures |r| == NAME_SIZE
    ensures forall k | 0 <= k < NAME_SIZE :: !IsLowerLetter(r[k])
  {
    UpperAll(Strncpy(query, NAME_SIZE))
  }

  /**
   `FindNumForName(name, startlump)`: the first entry from `start` on whose
   words equal the query's, or -1.
   */
  function FindNumForName(dir: seq<Lump>, query: seq<byte>, start: nat): (r: int)
    ensures r == -1 || start <= r < |dir|
    ensures r != -1 ==> dir[r].key == NameKey(QueryKey(query))
    ensures forall j | start <= j < |dir| && (r == -1 || j < r) :: dir[j].key != NameKey(QueryKey(query))
    decreases |dir| - start
  {
    if start >= |dir| then -1
    else if dir[start].key == NameKey(QueryKey(query)) then start
    else FindNumForName(dir, query, start + 1)
  }

  /**
   On a directory whose words are its names (every disk WAD), the search
   finds the first entry whose stored name is the upper-cased, truncated,
   NUL-padded query, and -1 exactly when there is none.
   */
  lemma FindNumForNameByName(dir: seq<Lump>, query: seq<byte>, start: nat)
    requires forall j | 0 <= j < |dir| :: Coherent(dir[j])
    ensures var r := FindNumForName(dir, query, start);
            && (r != -1 ==> dir[r].name == QueryKey(query))
            && (forall j | start <= j < |dir| && (r == -1 || j < r) :: dir[j].name != QueryKey(query))
            && (r == -1 <==> forall j | start <= j < |dir| :: dir[j].name != QueryKey(query))
  {
    forall j | 0 <= j < |dir| ensures dir[j].key == NameKey(QueryKey(query)) <==> dir[j].name == QueryKey(query) {
      NameKeyInjective(dir[j].name, QueryKey(query));
    }
  }

  /**
   A WAD read from memory whose entry name starts with a byte of 0x80 or
   above, and whose fourth byte is not 0xFF, is not found under that name:
   the smear turned its fourth byte into 0xFF, which the upper-cased query
   keeps as it was.
   */
  lemma HighByteQueryMisses(e: Entry)
    requires |e.name| == NAME_SIZE && e.name[0] >= 0x80 && e.name[3] < 0xFF
    ensures FindNumForName([MemoryLump(e)], e.name, 0) == -1
  {
    var l := MemoryLump(e);
    var n := StoredName(e.name);
    assert n[0] == e.name[0] by {
      var z := ZeroAfterNul(e.name);
      assert z[0] == e.name[0] by {
        assert e.name[0] != NUL;
        assert 0 <= NulIndex(e.name);
      }
      assert n == Strncpy(z, NAME_SIZE);
      assert NulIndex(z) >= 1;
    }
    MemoryNameAt(e, 3);
    assert l.name[3] == 0xFF;
    var q := QueryKey(e.name);
    assert q[3] != 0xFF by {
      var c := Strncpy(e.name, NAME_SIZE);
      assert c[3] == NUL || c[3] == e.name[3];
      assert q[3] == Upper(c[3]);
    }
    MemoryLumpSmeared(e);
    FindNumForNameByName([l], e.name, 0);
  }

  /** Stored names are never upper-cased: a lump whose name has a lower-case letter is never found. */
  lemma LowerCaseNameNeverFound(dir: seq<Lump>, query: seq<byte>, start: nat, j: nat, k: nat)
    requires forall i | 0 <= i < |dir| :: Coherent(dir[i])
    requires j < |dir| && k < NAME_SIZE && IsLowerLetter(dir[j].name[k])
    ensures FindNumForName(dir, query, start) != j
  {
    FindNumForNameByName(dir, query, start);
  }

  /** The query's case does not matter. */
  lemma QueryCaseInsensitive(dir: seq<Lump>, query: seq<byte>, start: nat)
    ensures FindNumForName(dir, LowerAll(query), start) == FindNumForName(dir, query, start)
  {
    var q := LowerAll(query);
    NulIndexIs(q, NulIndex(query));
    assert QueryKey(q) == QueryKey(query);
  }

  /**
   `FindPartialName(iname, startlump, &fullname)`: the first entry from
   `start` on whose first word is `iname`; the caller then reads its name.
   */
  function FindPartialName(dir: seq<Lump>, iname: uint32, start: nat): (r: int)
    ensures r == -1 || start <= r < |dir|
    ensures r != -1 ==> dir[r].key.lo == iname
    ensures forall j | start <= j < |dir| && (r == -1 || j < r) :: dir[j].key.lo != iname
    decreases |dir| - start
  {
    if start >= |dir| then -1
    else if dir[start].key.lo == iname then start
    else FindPartialName(dir, iname, start + 1)
  }

  /** On a coherent directory the partial search compares the first four name bytes. */
  lemma FindPartialNameByPrefix(dir: seq<Lump>, prefix: seq<byte>, start: nat)
    requires forall j | 0 <= j < |dir| :: Coherent(dir[j])
    requires |prefix| == 4
    ensures var r := FindPartialName(dir, ReadLE32(prefix, 0), start);
            && (r != -1 ==> dir[r].name[..4] == prefix)
            && (r == -1 <==> forall j | start <= j < |dir| :: dir[j].name[..4] != prefix)
  {
    forall j | 0 <= j < |dir| ensures dir[j].key.lo == ReadLE32(prefix, 0) <==> dir[j].name[..4] == prefix {
      ReadLE32Injective(dir[j].name, 0, prefix, 0);
      assert prefix[0..4] == prefix;
    }
  }

  //----------------------------------------------------------------------
  // Reading
  //----------------------------------------------------------------------

  /**
   `Wad::Internal_ReadItem(lump, dest, size, offset)`: seek to the lump's
   offset plus `offset` (an `unsigned` sum) and read what the file holds
   there, with no check against the lump's own size.
   */
  function DiskReadItem(file: seq<byte>, dir: seq<Lump>, lump: nat, size: uint32, offset: uint32): (r: seq<byte>)
    requires lump < |dir|
    ensures |r| <= size
    ensures AddU32(dir[lump].offset, offset) + size <= |file| ==> |r| == size
    ensures AddU32(dir[lump].offset, offset) >= |file| ==> r == []
    ensures AddU32(dir[lump].offset, offset) < |file| ==> |r| == Min(size, |file| - AddU32(dir[lump].offset, offset))
    ensures forall k | 0 <= k < |r| :: AddU32(dir[lump].offset, offset) + k < |file|
                                       && r[k] == file[AddU32(dir[lump].offset, offset) + k]
  {
    FileRead(file, AddU32(dir[lump].offset, offset), size)
  }

  /** What `WadFromMemory::Internal_ReadItem` can come to. */
  datatype MemRead =
    | Copied(bytes: seq<byte>)
      /** `memcpy` would read past the end of the buffer. */
    | OutOfBuffer

  /**
   `WadFromMemory::Internal_ReadItem`: nothing for an item outside the
   directory or an offset at or past the lump's end; otherwise `size` bytes
   clamped to the lump's end (the clamp tests the `unsigned` sum
   `offset + size`), copied from the buffer at lump start plus `offset`.
   */
  function MemoryReadItem(data: seq<byte>, dir: seq<Lump>, item: int, size: uint32, offset: uint32): (r: MemRead)
  {
    if item < 0 || item >= |dir| then Copied([])
    else
      var l := dir[item];
      if offset >= l.size then Copied([])
      else
        var count := if AddU32(offset, size) > l.size then l.size - offset else size;
        if l.offset + offset + count > |data| then OutOfBuffer
        else Copied(data[l.offset + offset..l.offset + offset + count])
  }

  /** The lump's bytes in the buffer. */
  function LumpBytes(data: seq<byte>, l: Lump): seq<byte>
    requires l.offset + l.size <= |data|
  {
    data[l.offset..l.offset + l.size]
  }

  /**
   A read of an item inside the directory, at an offset inside a lump that
   lies inside the buffer, copies exactly min(size, lump size - offset) bytes
   of the lump starting at `offset`; everything else copies nothing.
   */
  lemma MemoryReadItemClamped(data: seq<byte>, dir: seq<Lump>, item: int, size: uint32, offset: uint32)
    ensures item < 0 || item >= |dir| ==> MemoryReadItem(data, dir, item, size, offset) == Copied([])
    ensures 0 <= item < |dir| && offset >= dir[item].size ==> MemoryReadItem(data, dir, item, size, offset) == Copied([])
    ensures 0 <= item < |dir| && offset < dir[item].size && offset + size < TWO32
            && dir[item].offset + dir[item].size <= |data| ==>
              var count := Min(size, dir[item].size - offset);
              MemoryReadItem(data, dir, item, size, offset)
                == Copied(LumpBytes(data, dir[item])[offset..offset + count])
  {
    if 0 <= item < |dir| && offset < dir[item].size && offset + size < TWO32
       && dir[item].offset + dir[item].size <= |data| {
      var l := dir[item];
      var count := Min(size, l.size - offset);
      assert AddU32(offset, size) == offset + size;
      assert count == if AddU32(offset, size) > l.size then l.size - offset else size;
      assert l.offset + offset + count <= |data|;
      assert MemoryReadItem(data, dir, item, size, offset) == Copied(data[l.offset + offset..l.offset + offset + count]);
      assert LumpBytes(data, l)[offset..offset + count] == data[l.offset + offset..l.offset + offset + count];
    }
  }

  /**
   The clamp tests a wrapped sum: when `offset + size` passes 2^32 the read is
   not clamped, and `memcpy` runs past the lump.
   */
  lemma MemoryReadItemWraps(data: seq<byte>, l: Lump, size: uint32, offset: uint32)
    requires offset < l.size && offset + size >= TWO32
    ensures size > l.size - offset
    ensures MemoryReadItem(data, [l], 0, size, offset)
              == if l.offset + offset + size <= |data| then Copied(data[l.offset + offset..l.offset + offset + size])
                 else OutOfBuffer
  {
  }
}
