/**
 WAD2/WAD3 archives (`Wad3`): the WAD header followed by a directory of
 32-byte records with 16-byte names, searched case-sensitively by comparing
 the four 32-bit words the name overlays.
 */
module Wad3 {
  import opened Bytes
  import opened CStrings
  import opened Tables
  import opened Storage
  import Wad

  const ENTRY_SIZE: nat := 32
  const NAME_SIZE: nat := 16

  type Name = s: seq<byte> | |s| == NAME_SIZE witness [0, 0, 0, 0, 0, 0, 0, 0, 0, 0, 0, 0, 0, 0, 0, 0]

  /**
   A directory entry (`wad3dir_t`): `dsize` is the size in the file, `size`
   the size in memory, and a non-zero `compression` marks a compressed lump.
   */
  datatype Item = Item(offset: uint32, dsize: uint32, size: uint32, kind: byte, compression: byte, name: Name)

  function DecodeItem(rec: seq<byte>): (e: Item)
    requires |rec| == ENTRY_SIZE
  {
    Item(ReadLE32(rec, 0), ReadLE32(rec, 4), ReadLE32(rec, 8), rec[12], rec[13], rec[16..32])
  }

  /** The record of an item, with zero padding bytes. */
  function EncodeItem(e: Item): (r: seq<byte>)
    ensures |r| == ENTRY_SIZE
  {
    LE32Bytes(e.offset) + LE32Bytes(e.dsize) + LE32Bytes(e.size) + [e.kind, e.compression, 0, 0] + e.name
  }

  lemma DecodeEncodeItem(e: Item)
    ensures DecodeItem(EncodeItem(e)) == e
  {
    var tail := [e.kind, e.compression, 0, 0] + e.name;
    var r := EncodeItem(e);
    assert r == LE32Bytes(e.offset) + LE32Bytes(e.dsize) + LE32Bytes(e.size) + tail;
    HeadWords(e.offset, e.dsize, e.size, tail);
    assert r[12..] == tail;
    assert r[12] == e.kind && r[13] == e.compression;
    assert r[16..32] == tail[4..];
  }

  /** Three 32-bit words written in a row read back at offsets 0, 4 and 8. */
  lemma HeadWords(x: uint32, y: uint32, z: uint32, tail: seq<byte>)
    ensures var s := LE32Bytes(x) + LE32Bytes(y) + LE32Bytes(z) + tail;
            ReadLE32(s, 0) == x && ReadLE32(s, 4) == y && ReadLE32(s, 8) == z
  {
    var a, b, c := LE32Bytes(x), LE32Bytes(y), LE32Bytes(z);
    var s := a + b + c + tail;
    assert ReadLE32(s, 0) == x by {
      assert s == [] + a + (b + c + tail);
      ReadLE32Encode(x, [], b + c + tail);
    }
    assert ReadLE32(s, 4) == y by {
      assert s == a + b + (c + tail);
      ReadLE32Encode(y, a, c + tail);
    }
    assert ReadLE32(s, 8) == z by {
      assert s == (a + b) + c + tail;
      ReadLE32Encode(z, a + b, tail);
    }
  }

  /** The padding repair applied to each name while the directory is read. */
  function Repaired(e: Item): (r: Item)
    ensures r.name == ZeroAfterNul(e.name)
    ensures r.(name := e.name) == e
  {
    e.(name := ZeroAfterNul(e.name))
  }

  /**
   `Wad3::Open` after the file has been opened: like `Wad::Open`, no check of
   the magic or of the directory bounds, and the directory is read from where
   `fseek` left the stream; the names are repaired in place.
   */
  function Open(data: seq<byte>): (r: Opened<seq<Item>>)
    ensures !r.Rejected?
    ensures r.Opened? <==> |data| >= Wad.HEADER_SIZE && Wad.RecordsFit(data, ENTRY_SIZE)
    ensures r.Opened? ==> |r.dir| == Wad.DecodeHeader(data).numEntries
    ensures r.Opened? ==> forall i | 0 <= i < |r.dir| :: !HasGarbageAfterNul(r.dir[i].name)
  {
    if |data| < Wad.HEADER_SIZE || !Wad.RecordsFit(data, ENTRY_SIZE) then Undefined
    else
      var h := Wad.DecodeHeader(data);
      var es := if h.numEntries == 0 then []
                else DecodeTable(data, Wad.DirectoryStart(h.dirOffset), h.numEntries, ENTRY_SIZE, DecodeItem);
      var dir := seq(|es|, i requires 0 <= i < |es| => Repaired(es[i]));
      assert forall i | 0 <= i < |dir| :: !HasGarbageAfterNul(dir[i].name) by {
        forall i | 0 <= i < |dir| ensures !HasGarbageAfterNul(dir[i].name) {
          ZeroAfterNulIdempotent(es[i].name);
        }
      }
      Opened(dir)
  }

  /**
   Item `i` of an opened WAD2/WAD3 is record `i` of the directory, read from
   where `fseek` left the stream, its name repaired.
   */
  lemma OpenEntry(data: seq<byte>, i: nat)
    requires Open(data).Opened? && i < |Open(data).dir|
    ensures var at := Wad.DirectoryStart(Wad.DecodeHeader(data).dirOffset) + ENTRY_SIZE * i;
            && at + ENTRY_SIZE <= |data|
            && Open(data).dir[i] == Repaired(DecodeItem(data[at..at + ENTRY_SIZE]))
  {
    var h := Wad.DecodeHeader(data);
    var start := Wad.DirectoryStart(h.dirOffset);
    DecodeTableAt(data, start, h.numEntries, ENTRY_SIZE, DecodeItem, i);
    assert i * ENTRY_SIZE == ENTRY_SIZE * i;
  }

  /**
   A header announcing no entries opens with an empty directory, as a WAD
   or as a WAD2/WAD3, whatever its directory offset: zero records are read.
   */
  lemma EmptyDirectoryOpens(data: seq<byte>)
    requires |data| >= Wad.HEADER_SIZE && Wad.DecodeHeader(data).numEntries == 0
    ensures Wad.OpenDisk(data) == Opened([])
    ensures Open(data) == Opened([])
  {
  }

  /** A WAD2/WAD3 image whose directory follows the header directly. */
  function Image(magic: seq<byte>, items: seq<Item>): seq<byte>
    requires |items| < Wad.INT_LIMIT
  {
    Field(magic, 4) + LE32Bytes(|items|) + LE32Bytes(Wad.HEADER_SIZE) + EncodeTable(items, EncodeItem)
  }

  /** Opening a written image gives its items back, their names repaired. */
  lemma OpenImage(magic: seq<byte>, items: seq<Item>)
    requires |items| < Wad.INT_LIMIT
    ensures Open(Image(magic, items)).Opened?
    ensures Open(Image(magic, items)).dir == seq(|items|, i requires 0 <= i < |items| => Repaired(items[i]))
  {
    var img := Image(magic, items);
    var head := Field(magic, 4) + LE32Bytes(|items|) + LE32Bytes(Wad.HEADER_SIZE);
    var body := EncodeTable(items, EncodeItem);
    ReadLE32Encode(|items|, Field(magic, 4), LE32Bytes(Wad.HEADER_SIZE) + body);
    assert img == Field(magic, 4) + LE32Bytes(|items|) + (LE32Bytes(Wad.HEADER_SIZE) + body);
    ReadLE32Encode(Wad.HEADER_SIZE, Field(magic, 4) + LE32Bytes(|items|), body);
    forall i | 0 <= i < |items| ensures DecodeItem(EncodeItem(items[i])) == items[i] {
      DecodeEncodeItem(items[i]);
    }
    DecodeEncodeTable(items, EncodeItem, DecodeItem, ENTRY_SIZE, head, []);
    assert img == head + body + [];
  }

  /** The four words of a 16-byte name, as the search compares them. */
  function Words(name: Name): seq<uint32>
  {
    [ReadLE32(name, 0), ReadLE32(name, 4), ReadLE32(name, 8), ReadLE32(name, 12)]
  }

  /** Equal words, equal names. */
  lemma WordsInjective(a: Name, b: Name)
    ensures Words(a) == Words(b) <==> a == b
  {
    if Words(a) == Words(b) {
      WordEqual(a, b, 0);
      WordEqual(a, b, 4);
      WordEqual(a, b, 8);
      WordEqual(a, b, 12);
      assert a == a[0..4] + a[4..8] + a[8..12] + a[12..16];
      assert b == b[0..4] + b[4..8] + b[8..12] + b[12..16];
    }
  }

  lemma WordEqual(a: Name, b: Name, off: nat)
    requires off + 4 <= NAME_SIZE && ReadLE32(a, off) == ReadLE32(b, off)
    ensures a[off..off + 4] == b[off..off + 4]
  {
    ReadLE32Injective(a, off, b, off);
  }

  /** The query as `strncpy(s, name, 16)` leaves it; no case change. */
  function QueryKey(query: seq<byte>): Name
  {
    Strncpy(query, NAME_SIZE)
  }

  /** `Wad3::FindNumForName`: the first entry from `start` on whose words are the query's, or -1. */
  function FindNumForName(dir: seq<Item>, query: seq<byte>, start: nat): (r: int)
    ensures r == -1 || start <= r < |dir|
    ensures r != -1 ==> Words(dir[r].name) == Words(QueryKey(query))
    ensures forall j | start <= j < |dir| && (r == -1 || j < r) :: Words(dir[j].name) != Words(QueryKey(query))
  {
    FindWords(dir, Words(QueryKey(query)), start)
  }

  /** The first entry from `start` on whose name has the words `key`, or -1. */
  function FindWords(dir: seq<Item>, key: seq<uint32>, start: nat): (r: int)
    ensures r == -1 || start <= r < |dir|
    ensures r != -1 ==> Words(dir[r].name) == key
    ensures forall j | start <= j < |dir| && (r == -1 || j < r) :: Words(dir[j].name) != key
    decreases |dir| - start
  {
    if start >= |dir| then -1
    else if Words(dir[start].name) == key then start
    else FindWords(dir, key, start + 1)
  }

  /**
   The word comparison is a case-sensitive comparison of the 16-byte names:
   the result is the first entry from `start` whose name is the NUL-padded
   query, and -1 exactly when there is none.
   */
  lemma FindNumForNameByName(dir: seq<Item>, query: seq<byte>, start: nat)
    ensures var r := FindNumForName(dir, query, start);
            && (r != -1 ==> dir[r].name == QueryKey(query))
            && (forall j | start <= j < |dir| && (r == -1 || j < r) :: dir[j].name != QueryKey(query))
            && (r == -1 <==> forall j | start <= j < |dir| :: dir[j].name != QueryKey(query))
  {
    forall j | 0 <= j < |dir| ensures Words(dir[j].name) == Words(QueryKey(query)) <==> dir[j].name == QueryKey(query) {
      WordsInjective(dir[j].name, QueryKey(query));
    }
  }

  /** What `Wad3::Internal_ReadItem` returns. */
  datatype ItemRead =
    | Bytes(bytes: seq<byte>)
      /** -1: the lump is compressed and cannot be read. */
    | Compressed

  /**
   `Wad3::Internal_ReadItem(lump, dest, size, offset)`: -1 for a compressed
   lump, otherwise a plain stream read at the lump's offset plus `offset`.
   */
  function ReadItem(file: seq<byte>, dir: seq<Item>, lump: nat, size: uint32, offset: uint32): (r: ItemRead)
    requires lump < |dir|
    ensures r.Compressed? <==> dir[lump].compression != 0
    ensures r.Bytes? ==> |r.bytes| <= size
    ensures r.Bytes? && AddU32(dir[lump].offset, offset) + size <= |file| ==> |r.bytes| == size
    ensures r.Bytes? && AddU32(dir[lump].offset, offset) >= |file| ==> r.bytes == []
    ensures r.Bytes? && AddU32(dir[lump].offset, offset) < |file|
            ==> |r.bytes| == Min(size, |file| - AddU32(dir[lump].offset, offset))
    ensures r.Bytes? ==> forall k | 0 <= k < |r.bytes| :: AddU32(dir[lump].offset, offset) + k < |file|
                                                       && r.bytes[k] == file[AddU32(dir[lump].offset, offset) + k]
  {
    if dir[lump].compression != 0 then Compressed
    else Bytes(FileRead(file, AddU32(dir[lump].offset, offset), size))
  }
}
