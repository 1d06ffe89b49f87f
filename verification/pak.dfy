/**
 PACK archives (`Pak`): a 12-byte header ("PACK", directory offset,
 directory size in bytes) and a directory of 64-byte records with 56-byte
 names.
 */
module Pak {
  import opened Bytes
  import opened CStrings
  import opened Tables
  import opened Storage

  const HEADER_SIZE: nat := 12
  const ENTRY_SIZE: nat := 64
  const NAME_SIZE: nat := 56
  const INT_LIMIT: nat := 0x8000_0000

  datatype Header = Header(magic: seq<byte>, dirOffset: uint32, dirSize: uint32)

  /** A directory entry (`pakdir_t`). */
  datatype Item = Item(name: seq<byte>, offset: uint32, size: uint32)

  function DecodeHeader(data: seq<byte>): (h: Header)
    requires |data| >= HEADER_SIZE
  {
    Header(data[0..4], ReadLE32(data, 4), ReadLE32(data, 8))
  }

  /** `dirsize / sizeof(pakdir_t)`: a partial trailing record is ignored. */
  function NumItems(h: Header): (n: nat)
    ensures n * ENTRY_SIZE <= h.dirSize < (n + 1) * ENTRY_SIZE
  {
    h.dirSize / ENTRY_SIZE
  }

  function DecodeItem(rec: seq<byte>): (e: Item)
    requires |rec| == ENTRY_SIZE
    ensures |e.name| == NAME_SIZE
  {
    Item(rec[0..56], ReadLE32(rec, 56), ReadLE32(rec, 60))
  }

  function EncodeItem(e: Item): (r: seq<byte>)
    ensures |r| == ENTRY_SIZE
  {
    Field(e.name, NAME_SIZE) + LE32Bytes(e.offset) + LE32Bytes(e.size)
  }

  lemma DecodeEncodeItem(e: Item)
    requires |e.name| == NAME_SIZE
    ensures DecodeItem(EncodeItem(e)) == e
  {
    var r := EncodeItem(e);
    ReadLE32Encode(e.offset, e.name, LE32Bytes(e.size));
    assert r == e.name + LE32Bytes(e.offset) + LE32Bytes(e.size);
    ReadLE32Encode(e.size, e.name + LE32Bytes(e.offset), []);
    assert r == e.name + LE32Bytes(e.offset) + LE32Bytes(e.size) + [];
    assert r[0..56] == e.name;
  }

  /** The name repair: `TestPadding(name, 56)` and then `name[55] = 0`. */
  function RepairName(raw: seq<byte>): (r: seq<byte>)
    requires |raw| == NAME_SIZE
    ensures |r| == NAME_SIZE && r[NAME_SIZE - 1] == NUL
    ensures !HasGarbageAfterNul(r)
    ensures NulIndex(r) == Min(NulIndex(raw), NAME_SIZE - 1)
    ensures CStr(r) == CStr(raw)[..NulIndex(r)]
  {
    var z := ZeroAfterNul(raw);
    var r := z[NAME_SIZE - 1 := NUL];
    ZeroAfterNulIdempotent(raw);
    NulIndexIs(r, Min(NulIndex(raw), NAME_SIZE - 1));
    r
  }

  /**
   Where the directory is read from: `diroffset` is an `int`, and a negative
   one makes `fseek` fail, leaving the stream just after the header.
   */
  function DirectoryStart(h: Header): (r: nat)
    ensures h.dirOffset < INT_LIMIT ==> r == h.dirOffset
    ensures h.dirOffset >= INT_LIMIT ==> r == HEADER_SIZE
  {
    if h.dirOffset < INT_LIMIT then h.dirOffset else HEADER_SIZE
  }

  /** The directory is empty or lies inside the file from where it is read. */
  predicate DirectoryFits(data: seq<byte>)
    requires |data| >= HEADER_SIZE
  {
    var h := DecodeHeader(data);
    NumItems(h) == 0 || DirectoryStart(h) + NumItems(h) * ENTRY_SIZE <= |data|
  }

  /**
   `Pak::Open` after the file has been opened: the magic is not checked
   here, the directory size is cut to whole records, and a directory that
   lies outside the file is read from contents never written.
   */
  function Open(data: seq<byte>): (r: Opened<seq<Item>>)
    ensures !r.Rejected?
    ensures r.Opened? <==> |data| >= HEADER_SIZE && DirectoryFits(data)
    ensures r.Opened? ==> |r.dir| == NumItems(DecodeHeader(data))
    ensures r.Opened? ==> forall i | 0 <= i < |r.dir| :: |r.dir[i].name| == NAME_SIZE
    ensures r.Opened? ==> forall i | 0 <= i < |r.dir| :: NulIndex(r.dir[i].name) < NAME_SIZE
  {
    if |data| < HEADER_SIZE || !DirectoryFits(data) then Undefined
    else
      var es := Items(data);
      var dir := seq(|es|, i requires 0 <= i < |es| => RepairedItem(es[i]));
      forall i | 0 <= i < |dir| ensures |dir[i].name| == NAME_SIZE && NulIndex(dir[i].name) < NAME_SIZE {
        RepairedItemClean(es[i]);
      }
      Opened(dir)
  }

  /**
   Item `i` of an opened PACK is record `i` of the directory, read from where
   `fseek` left the stream, its name cut and terminated.
   */
  lemma OpenEntry(data: seq<byte>, i: nat)
    requires Open(data).Opened? && i < |Open(data).dir|
    ensures var at := DirectoryStart(DecodeHeader(data)) + ENTRY_SIZE * i;
            && at + ENTRY_SIZE <= |data|
            && Open(data).dir[i] == RepairedItem(DecodeItem(data[at..at + ENTRY_SIZE]))
  {
    var h := DecodeHeader(data);
    var start, n := DirectoryStart(h), NumItems(h);
    assert Open(data).dir[i] == RepairedItem(Items(data)[i]);
    assert Items(data) == DecodeTable(data, start, n, ENTRY_SIZE, DecodeItem);
    DecodeTableAt(data, start, n, ENTRY_SIZE, DecodeItem, i);
    assert i * ENTRY_SIZE == ENTRY_SIZE * i;
  }

  /**
   A directory size under one record opens an empty directory, whatever the
   directory offset.
   */
  lemma EmptyDirectoryOpens(data: seq<byte>)
    requires |data| >= HEADER_SIZE && NumItems(DecodeHeader(data)) == 0
    ensures Open(data) == Opened([])
  {
  }

  /** The records of the directory, as stored. */
  function Items(data: seq<byte>): (r: seq<Item>)
    requires |data| >= HEADER_SIZE && DirectoryFits(data)
    ensures |r| == NumItems(DecodeHeader(data))
    ensures forall i | 0 <= i < |r| :: |r[i].name| == NAME_SIZE
  {
    var h := DecodeHeader(data);
    if NumItems(h) == 0 then []
    else
      var r := DecodeTable(data, DirectoryStart(h), NumItems(h), ENTRY_SIZE, DecodeItem);
      assert forall i | 0 <= i < |r| :: |r[i].name| == NAME_SIZE by {
        forall i | 0 <= i < |r| ensures |r[i].name| == NAME_SIZE {
          DecodeTableAt(data, DirectoryStart(h), NumItems(h), ENTRY_SIZE, DecodeItem, i);
        }
      }
      r
  }

  lemma RepairedItemClean(e: Item)
    requires |e.name| == NAME_SIZE
    ensures |RepairedItem(e).name| == NAME_SIZE && NulIndex(RepairedItem(e).name) < NAME_SIZE
  {
  }

  function RepairedItem(e: Item): (r: Item)
    requires |e.name| == NAME_SIZE
    ensures |r.name| == NAME_SIZE && NulIndex(r.name) < NAME_SIZE
    ensures r.offset == e.offset && r.size == e.size
  {
    e.(name := RepairName(e.name))
  }

  /** A PACK image whose directory follows the header directly. */
  function Image(items: seq<Item>): seq<byte>
    requires |items| * ENTRY_SIZE < TWO32
  {
    PACK + LE32Bytes(HEADER_SIZE) + LE32Bytes(|items| * ENTRY_SIZE) + EncodeTable(items, EncodeItem)
  }

  const PACK: seq<byte> := [0x50, 0x41, 0x43, 0x4B]

  /** A name that fits the field with room for its terminating NUL. */
  predicate WellFormedItem(e: Item)
  {
    |e.name| == NAME_SIZE && ZeroAfterNul(e.name) == e.name && e.name[NAME_SIZE - 1] == NUL
  }

  /** The header of a written image describes the directory that follows it. */
  lemma ImageHeader(items: seq<Item>)
    requires |items| * ENTRY_SIZE < TWO32
    ensures |Image(items)| >= HEADER_SIZE
    ensures DecodeHeader(Image(items)).dirOffset == HEADER_SIZE
    ensures NumItems(DecodeHeader(Image(items))) == |items|
  {
    var img := Image(items);
    var body := EncodeTable(items, EncodeItem);
    ReadLE32Encode(HEADER_SIZE, PACK, LE32Bytes(|items| * ENTRY_SIZE) + body);
    assert img == PACK + LE32Bytes(HEADER_SIZE) + (LE32Bytes(|items| * ENTRY_SIZE) + body);
    ReadLE32Encode(|items| * ENTRY_SIZE, PACK + LE32Bytes(HEADER_SIZE), body);
  }

  /** Opening a written image gives the written items back unchanged. */
  lemma OpenImage(items: seq<Item>)
    requires |items| * ENTRY_SIZE < TWO32
    requires forall i | 0 <= i < |items| :: WellFormedItem(items[i])
    ensures Open(Image(items)) == Opened(items)
  {
    var img := Image(items);
    var head := PACK + LE32Bytes(HEADER_SIZE) + LE32Bytes(|items| * ENTRY_SIZE);
    var body := EncodeTable(items, EncodeItem);
    ImageHeader(items);
    forall i | 0 <= i < |items| ensures DecodeItem(EncodeItem(items[i])) == items[i] {
      DecodeEncodeItem(items[i]);
    }
    DecodeEncodeTable(items, EncodeItem, DecodeItem, ENTRY_SIZE, head, []);
    assert img == head + body + [];
    assert Items(img) == items;
    var dir := seq(|items|, i requires 0 <= i < |items| => RepairedItem(items[i]));
    assert Open(img) == Opened(dir);
    forall i | 0 <= i < |items| ensures dir[i] == items[i] {
      RepairedWellFormed(items[i]);
    }
    assert dir == items;
  }

  /** The repair leaves a well-formed record alone. */
  lemma RepairedWellFormed(e: Item)
    requires WellFormedItem(e)
    ensures RepairedItem(e) == e
  {
    assert e.name[NAME_SIZE - 1 := NUL] == e.name;
  }

  /** The stream read of `Pak::Internal_ReadItem`, unchecked against the item's size. */
  function ReadItem(file: seq<byte>, dir: seq<Item>, item: nat, size: uint32, offset: uint32): (r: seq<byte>)
    requires item < |dir|
    ensures |r| <= size
    ensures AddU32(dir[item].offset, offset) + size <= |file| ==> |r| == size
    ensures AddU32(dir[item].offset, offset) >= |file| ==> r == []
    ensures AddU32(dir[item].offset, offset) < |file| ==> |r| == Min(size, |file| - AddU32(dir[item].offset, offset))
    ensures forall k | 0 <= k < |r| :: AddU32(dir[item].offset, offset) + k < |file|
                                       && r[k] == file[AddU32(dir[item].offset, offset) + k]
  {
    FileRead(file, AddU32(dir[item].offset, offset), size)
  }
}
