/**
 The registry of open archives (`FileCache`): name lookups across the
 archives, the 32-bit lump handle that packs a file number and an item
 number, and the pruning of ZIP wrappers from the list.
 */
module Registry {
  import opened Bytes
  import opened CStrings
  import Wad
  import Wad3
  import Pak
  import Zip

  /** The directory of one open archive, by the class that opened it. */
  datatype Content =
      /** `Wad` and `WadFromMemory`: they differ only in how the lump keys were built. */
    | WadDir(lumps: seq<Wad.Lump>)
    | Wad3Dir(items: seq<Wad3.Item>)
    | PakDir(entries: seq<Pak.Item>)
    | ZipDir(files: seq<Zip.Item>)
      /** `VDir`: a directory on disk, known by the names of its files. */
    | Folder(names: seq<seq<byte>>)

  /** An element of `vfiles`: the archive's file name and its directory. */
  datatype Archive = Archive(filename: seq<byte>, content: Content)

  /** What a registry call comes to when it may end the program. */
  datatype Outcome<T> =
    | Done(value: T)
      /** `I_Error`: the program stops. */
    | Fatal

  //----------------------------------------------------------------------
  // One archive
  //----------------------------------------------------------------------

  /** The stored name field of every item (`GetItemName`), in directory order. */
  function Names(a: Archive): (r: seq<seq<byte>>)
  {
    match a.content
    case WadDir(ls) => seq(|ls|, i requires 0 <= i < |ls| => ls[i].name)
    case Wad3Dir(ws) => seq(|ws|, i requires 0 <= i < |ws| => ws[i].name)
    case PakDir(ps) => seq(|ps|, i requires 0 <= i < |ps| => ps[i].name)
    case ZipDir(zs) => seq(|zs|, i requires 0 <= i < |zs| => zs[i].name)
    case Folder(ns) => ns
  }

  /** `numitems`. */
  function NumItems(a: Archive): nat
  {
    |Names(a)|
  }

  /**
   The name map of the PACK, ZIP and folder archives: the first item from
   `start` on whose C-string name equals the query's, ignoring case, or -1.
   */
  function FirstNamed(names: seq<seq<byte>>, query: seq<byte>, start: nat): (r: int)
    ensures r == -1 || start <= r < |names|
    ensures r != -1 ==> EqualIgnoringCase(CStr(names[r]), CStr(query))
    ensures forall j | start <= j < |names| && (r == -1 || j < r) :: !EqualIgnoringCase(CStr(names[j]), CStr(query))
    decreases |names| - start
  {
    if start >= |names| then -1
    else if EqualIgnoringCase(CStr(names[start]), CStr(query)) then start
    else FirstNamed(names, query, start + 1)
  }

  /** `vfiles[i]->FindNumForName(name, startlump)`, dispatched on the archive's class. */
  function FindIn(a: Archive, query: seq<byte>, start: nat): (r: int)
    ensures r == -1 || start <= r < NumItems(a)
  {
    match a.content
    case WadDir(ls) => Wad.FindNumForName(ls, query, start)
    case Wad3Dir(ws) => Wad3.FindNumForName(ws, query, start)
    case _ => FirstNamed(Names(a), query, start)
  }

  /** `vfiles[i]->FindPartialName(iname, startlump, &fullname)`: only WADs search by a name prefix. */
  function PartialIn(a: Archive, iname: uint32, start: nat): (r: int)
    ensures r == -1 || start <= r < NumItems(a)
    ensures !a.content.WadDir? ==> r == -1
    ensures a.content.WadDir? && r != -1 ==> a.content.lumps[r].key.lo == iname
  {
    match a.content
    case WadDir(ls) => Wad.FindPartialName(ls, iname, start)
    case _ => -1
  }

  /** The archive has an item under the name. */
  predicate Holds(a: Archive, query: seq<byte>)
  {
    FindIn(a, query, 0) != -1
  }

  //----------------------------------------------------------------------
  // Lump handles
  //----------------------------------------------------------------------

  /** The span of item numbers under one file number: `1 << 16`. */
  const ITEM_SPAN: nat := 0x1_0000
  /** Files whose handles `i << 16` stay non-negative 32-bit `int`s. */
  const FILE_LIMIT: nat := 0x8000
  const INT32_MIN: int := -0x8000_0000
  const INT32_LIMIT: int := 0x8000_0000

  /** An integer as a two's complement 32-bit `int` holds it. */
  function Int32(x: int): (r: int)
    ensures INT32_MIN <= r < INT32_LIMIT
    ensures (x - r) % TWO32 == 0
    ensures INT32_MIN <= x < INT32_LIMIT ==> r == x
  {
    (x - INT32_MIN) % TWO32 + INT32_MIN
  }

  /** `(i << 16) + res`: the handle of item `item` of file `file`. */
  function Handle(file: nat, item: nat): (h: int)
    ensures INT32_MIN <= h < INT32_LIMIT
    ensures file < FILE_LIMIT && item < ITEM_SPAN ==> 0 <= h
  {
    Int32(file * ITEM_SPAN + item)
  }

  /** `unsigned int file = lump >> 16`: an arithmetic shift, then the conversion to `unsigned`. */
  function FileOf(h: int): (f: uint32)
    requires INT32_MIN <= h < INT32_LIMIT
    ensures 0 <= h ==> f < FILE_LIMIT && f * ITEM_SPAN <= h < (f + 1) * ITEM_SPAN
    ensures h < 0 ==> f >= TWO32 - FILE_LIMIT
  {
    (h / ITEM_SPAN) % TWO32
  }

  /** `int item = lump & 0xffff`. */
  function ItemOf(h: int): (i: nat)
    ensures i < ITEM_SPAN
    ensures (h - i) % ITEM_SPAN == 0
  {
    h % ITEM_SPAN
  }

  /** Decoding a handle gives back its file and item while both fit their fields. */
  lemma HandleRoundTrip(file: nat, item: nat)
    requires file < FILE_LIMIT && item < ITEM_SPAN
    ensures FileOf(Handle(file, item)) == file
    ensures ItemOf(Handle(file, item)) == item
  {
    var h := file * ITEM_SPAN + item;
    assert Handle(file, item) == h;
    assert h / ITEM_SPAN == file;
    assert h % ITEM_SPAN == item;
  }

  /** An item number of 16 bits or more spills into the file number: two items share one handle. */
  lemma HandleAliases(file: nat, item: nat)
    requires item >= ITEM_SPAN
    ensures Handle(file, item) == Handle(file + 1, item - ITEM_SPAN)
  {
    assert file * ITEM_SPAN + item == (file + 1) * ITEM_SPAN + (item - ITEM_SPAN);
  }

  /** Item 65536 of file 0 is read back as item 0 of file 1. */
  lemma HandleAliasExample()
    ensures FileOf(Handle(0, ITEM_SPAN)) == 1 && ItemOf(Handle(0, ITEM_SPAN)) == 0
  {
    HandleAliases(0, ITEM_SPAN);
    HandleRoundTrip(1, 0);
  }

  /** The "not found" result -1 decodes to a file number no registry reaches. */
  lemma NotFoundDecodes()
    ensures FileOf(-1) == TWO32 - 1 && ItemOf(-1) == ITEM_SPAN - 1
  {
  }

  /** No handle of an encodable file is the "not found" result. */
  lemma HandleIsNotNotFound(file: nat, item: nat)
    requires file < FILE_LIMIT && item < INT32_LIMIT
    ensures Handle(file, item) != -1
  {
    var h := file * ITEM_SPAN + item;
    if h < INT32_LIMIT {
      assert Handle(file, item) == h;
    } else {
      assert h < TWO32 - ITEM_SPAN;
      assert Handle(file, item) == h - TWO32;
    }
  }

  /**
   A registry whose every item has a handle: fewer files than `1 << 15` and
   no archive with more than `1 << 16` items.
   */
  predicate Valid(reg: seq<Archive>)
  {
    |reg| <= FILE_LIMIT && forall i | 0 <= i < |reg| :: NumItems(reg[i]) <= ITEM_SPAN
  }

  //----------------------------------------------------------------------
  // Searching all archives
  //----------------------------------------------------------------------

  /** For every file, whether it holds the name. */
  function Hits(reg: seq<Archive>, query: seq<byte>): (hs: seq<bool>)
  {
    seq(|reg|, i requires 0 <= i < |reg| => Holds(reg[i], query))
  }

  /** The highest position below `n` that is set, or -1. */
  function LastSet(bs: seq<bool>, n: nat): (i: int)
    requires n <= |bs|
    ensures -1 <= i < n
    ensures i != -1 ==> bs[i]
    ensures forall j | i < j < n :: !bs[j]
    decreases n
  {
    if n == 0 then -1
    else if bs[n - 1] then n - 1
    else LastSet(bs, n - 1)
  }

  /** The lowest position from `k` on that is set, or -1. */
  function FirstSet(bs: seq<bool>, k: nat): (i: int)
    requires k <= |bs|
    ensures i == -1 || k <= i < |bs|
    ensures i != -1 ==> bs[i]
    ensures forall j | k <= j < |bs| && (i == -1 || j < i) :: !bs[j]
    decreases |bs| - k
  {
    if k == |bs| then -1
    else if bs[k] then k
    else FirstSet(bs, k + 1)
  }

  /** The file whose answer counts: the last one holding the name, or the first when scanning forward. */
  function Winner(reg: seq<Archive>, query: seq<byte>, scanForward: bool): (i: int)
    ensures i == -1 || 0 <= i < |reg|
  {
    var hs := Hits(reg, query);
    if scanForward then FirstSet(hs, 0) else LastSet(hs, |hs|)
  }

  /**
   `FileCache::FindNumForName(name, scanforward)`: the files are searched
   from the last loaded one down (so later files override earlier ones), or
   from the first one up when `scanForward` is set; the hit is returned as a
   handle, and -1 when no file has the name.
   */
  function FindNumForName(reg: seq<Archive>, query: seq<byte>, scanForward: bool): (r: int)
    ensures INT32_MIN <= r < INT32_LIMIT
  {
    var i := Winner(reg, query, scanForward);
    if i == -1 then -1 else Handle(i, FindIn(reg[i], query, 0))
  }

  /**
   On a registry whose items all have handles, the result decodes to the
   file that wins (the last holder, or the first when scanning forward) and
   the item that file's own search finds; -1 means no file has the name.
   */
  lemma FindNumForNameDecodes(reg: seq<Archive>, query: seq<byte>, scanForward: bool)
    requires Valid(reg)
    ensures var r := FindNumForName(reg, query, scanForward);
            && (r == -1 <==> forall i | 0 <= i < |reg| :: !Holds(reg[i], query))
            && (r != -1 ==>
                  var f := FileOf(r);
                  && f < |reg| && Holds(reg[f], query) && ItemOf(r) == FindIn(reg[f], query, 0)
                  && (scanForward ==> forall j | 0 <= j < f :: !Holds(reg[j], query))
                  && (!scanForward ==> forall j | f < j < |reg| :: !Holds(reg[j], query)))
  {
    var hs := Hits(reg, query);
    var i := Winner(reg, query, scanForward);
    assert forall j | 0 <= j < |reg| :: hs[j] == Holds(reg[j], query);
    if i != -1 {
      var item := FindIn(reg[i], query, 0);
      HandleRoundTrip(i, item);
      HandleIsNotNotFound(i, item);
    }
  }

  /** A file loaded after all others overrides them for every name it has. */
  lemma LaterFileOverrides(reg: seq<Archive>, a: Archive, query: seq<byte>)
    requires Holds(a, query)
    ensures FindNumForName(reg + [a], query, false) == Handle(|reg|, FindIn(a, query, 0))
  {
    var hs := Hits(reg + [a], query);
    assert hs[|reg|];
    assert (reg + [a])[|reg|] == a;
  }

  /** Scanning forward, a file loaded after one that has the name changes nothing. */
  lemma LaterFileIgnoredForward(reg: seq<Archive>, a: Archive, query: seq<byte>)
    requires exists i | 0 <= i < |reg| :: Holds(reg[i], query)
    ensures FindNumForName(reg + [a], query, true) == FindNumForName(reg, query, true)
  {
    var hs := Hits(reg, query);
    assert Hits(reg + [a], query) == hs + [Holds(a, query)];
    var k :| 0 <= k < |reg| && Holds(reg[k], query);
    assert hs[k];
    FirstSetAppend(hs, Holds(a, query), 0);
    var i := FirstSet(hs, 0);
    assert (reg + [a])[i] == reg[i];
  }

  /** Appending a position does not move the first set one among those already there. */
  lemma {:induction false} FirstSetAppend(bs: seq<bool>, b: bool, k: nat)
    requires k <= |bs|
    requires FirstSet(bs, k) != -1
    ensures FirstSet(bs + [b], k) == FirstSet(bs, k)
    decreases |bs| - k
  {
    assert (bs + [b])[k] == bs[k];
    if !bs[k] {
      FirstSetAppend(bs, b, k + 1);
    }
  }

  //----------------------------------------------------------------------
  // Searching one archive
  //----------------------------------------------------------------------

  /**
   `FileCache::FindNumForNameFile(name, filenum, startlump)`: stops the
   program for a file number past the registry, otherwise searches only
   that file from `start` and returns the hit as a handle, or -1.
   */
  function FindNumForNameFile(reg: seq<Archive>, query: seq<byte>, filenum: uint32, start: nat): (r: Outcome<int>)
    ensures r.Fatal? <==> filenum >= |reg|
    ensures r.Done? && FindIn(reg[filenum], query, start) == -1 ==> r.value == -1
  {
    if filenum >= |reg| then Fatal
    else
      var res := FindIn(reg[filenum], query, start);
      if res != -1 then Done(Handle(filenum, res)) else Done(-1)
  }

  /** The handle it returns names an item of that file, at or after `start`, holding the name. */
  lemma FindNumForNameFileDecodes(reg: seq<Archive>, query: seq<byte>, filenum: uint32, start: nat)
    requires Valid(reg) && filenum < |reg|
    ensures var r := FindNumForNameFile(reg, query, filenum, start);
            && r.Done?
            && (r.value == -1 <==> FindIn(reg[filenum], query, start) == -1)
            && (r.value != -1 ==> FileOf(r.value) == filenum && ItemOf(r.value) == FindIn(reg[filenum], query, start)
                                  && start <= ItemOf(r.value) < NumItems(reg[filenum]))
  {
    var res := FindIn(reg[filenum], query, start);
    if res != -1 {
      HandleRoundTrip(filenum, res);
      HandleIsNotNotFound(filenum, res);
    }
  }

  /**
   `FileCache::FindPartialName(iname, filenum, startlump, &fullname)`: stops
   the program for a file number past the registry, otherwise returns that
   file's own answer, an item number rather than a handle.
   */
  function FindPartialName(reg: seq<Archive>, iname: uint32, filenum: uint32, start: nat): (r: Outcome<int>)
    ensures r.Fatal? <==> filenum >= |reg|
    ensures r.Done? ==> r.value == -1 || start <= r.value < NumItems(reg[filenum])
    ensures r.Done? && !reg[filenum].content.WadDir? ==> r.value == -1
    ensures r.Done? && r.value != -1 ==> reg[filenum].content.lumps[r.value].key.lo == iname
  {
    if filenum >= |reg| then Fatal else Done(PartialIn(reg[filenum], iname, start))
  }

  /** The partial search carries no file number: its hit in any file but the first decodes to file 0. */
  lemma PartialNameIsNotAHandle(reg: seq<Archive>, iname: uint32, filenum: uint32, start: nat)
    requires Valid(reg) && 0 < filenum < |reg|
    requires FindPartialName(reg, iname, filenum, start).value != -1
    ensures FileOf(FindPartialName(reg, iname, filenum, start).value) == 0 != filenum
  {
  }

  //----------------------------------------------------------------------
  // From a handle back to the item
  //----------------------------------------------------------------------

  /**
   `FileCache::FindNameForNum(lump)`: stops the program for a file number
   past the registry, gives NULL (`None`) for an item number past the file,
   and the item's name otherwise.
   */
  function FindNameForNum(reg: seq<Archive>, lump: int): (r: Outcome<Option<seq<byte>>>)
    requires INT32_MIN <= lump < INT32_LIMIT
    ensures r.Fatal? <==> FileOf(lump) >= |reg|
    ensures r.Done? ==> (r.value.None? <==> ItemOf(lump) >= NumItems(reg[FileOf(lump)]))
    ensures r.Done? && r.value.Some? ==> r.value.value == Names(reg[FileOf(lump)])[ItemOf(lump)]
  {
    var file := FileOf(lump);
    var item := ItemOf(lump);
    if file >= |reg| then Fatal
    else if item >= NumItems(reg[file]) then Done(None)
    else Done(Some(Names(reg[file])[item]))
  }

  /** The handle a lookup finds gives back the name of the item it found. */
  lemma FoundNameRoundTrip(reg: seq<Archive>, query: seq<byte>, scanForward: bool)
    requires Valid(reg)
    requires FindNumForName(reg, query, scanForward) != -1
    ensures FindNameForNum(reg, FindNumForName(reg, query, scanForward)).Done?
    ensures FindNameForNum(reg, FindNumForName(reg, query, scanForward)).value.Some?
  {
    FindNumForNameDecodes(reg, query, scanForward);
  }

  /** Asking for the name of the "not found" result stops the program. */
  lemma NameOfNotFound(reg: seq<Archive>)
    requires |reg| < TWO32 - 1
    ensures FindNameForNum(reg, -1).Fatal?
  {
    NotFoundDecodes();
  }

  /** The file and item a read addresses. */
  datatype Target = Target(file: nat, item: nat)

  /**
   `FileCache::ReadLumpHeader(lump, ...)` up to the call into the archive:
   a file number past the registry or an item number past the file stops
   the program; otherwise the archive's own read is made for that item.
   */
  function ReadLumpHeader(reg: seq<Archive>, lump: int): (r: Outcome<Target>)
    requires INT32_MIN <= lump < INT32_LIMIT
    ensures r.Fatal? <==> FileOf(lump) >= |reg| || ItemOf(lump) >= NumItems(reg[FileOf(lump)])
    ensures r.Done? ==> r.value.file < |reg| && r.value.item < NumItems(reg[r.value.file])
    ensures r.Done? && 0 <= lump ==> Handle(r.value.file, r.value.item) == lump
  {
    var file := FileOf(lump);
    var item := ItemOf(lump);
    if file >= |reg| || item >= NumItems(reg[file]) then Fatal
    else Done(Target(file, item))
  }

  /** Every item of a valid registry is read through its own handle. */
  lemma ReadLumpHeaderOfHandle(reg: seq<Archive>, file: nat, item: nat)
    requires Valid(reg) && file < |reg| && item < NumItems(reg[file])
    ensures ReadLumpHeader(reg, Handle(file, item)) == Done(Target(file, item))
  {
    HandleRoundTrip(file, item);
  }

  //----------------------------------------------------------------------
  // Pruning ZIP wrappers
  //----------------------------------------------------------------------

  const ZIP_EXT: seq<byte> := [0x7A, 0x69, 0x70]  // "zip"

  /** The file name's text after its last dot is "zip", in any case. */
  predicate IsZipFile(a: Archive)
  {
    HasExtension(CStr(a.filename), ZIP_EXT)
  }

  /** Every element of `s` that `keep` accepts, in their order. */
  function Filter<T>(s: seq<T>, keep: T -> bool): (r: seq<T>)
    ensures |r| <= |s|
    decreases |s|
  {
    if |s| == 0 then []
    else (if keep(s[0]) then [s[0]] else []) + Filter(s[1..], keep)
  }

  /** An element survives the filter exactly when it was there and is accepted. */
  lemma {:induction false} FilterMembers<T>(s: seq<T>, keep: T -> bool, x: T)
    ensures x in Filter(s, keep) <==> x in s && keep(x)
    decreases |s|
  {
    if |s| > 0 {
      FilterMembers(s[1..], keep, x);
      assert s == [s[0]] + s[1..];
    }
  }

  /** The filter of a concatenation is the concatenation of the filters. */
  lemma {:induction false} FilterAppend<T>(a: seq<T>, b: seq<T>, keep: T -> bool)
    ensures Filter(a + b, keep) == Filter(a, keep) + Filter(b, keep)
    decreases |a|
  {
    if |a| > 0 {
      FilterAppend(a[1..], b, keep);
      assert (a + b)[0] == a[0];
      assert (a + b)[1..] == a[1..] + b;
    } else {
      assert a + b == b;
    }
  }

  /** Everything the filter keeps is accepted, so filtering twice filters once. */
  lemma {:induction false} FilterIdempotent<T>(s: seq<T>, keep: T -> bool)
    ensures forall i | 0 <= i < |Filter(s, keep)| :: keep(Filter(s, keep)[i])
    ensures Filter(Filter(s, keep), keep) == Filter(s, keep)
    decreases |s|
  {
    if |s| > 0 {
      FilterIdempotent(s[1..], keep);
      var head := if keep(s[0]) then [s[0]] else [];
      FilterAppend(head, Filter(s[1..], keep), keep);
      assert Filter(head, keep) == head by {
        if |head| == 1 {
          assert head[1..] == [];
        }
      }
    }
  }

  predicate NotZip(a: Archive)
  {
    !IsZipFile(a)
  }

  /** The registry with every ZIP file left out, the rest in their order. */
  function WithoutZips(reg: seq<Archive>): (r: seq<Archive>)
    ensures |r| <= |reg|
  {
    Filter(reg, NotZip)
  }

  /** An archive survives the pruning exactly when it was there and is no ZIP file. */
  lemma WithoutZipsMembers(reg: seq<Archive>, a: Archive)
    ensures a in WithoutZips(reg) <==> a in reg && !IsZipFile(a)
  {
    FilterMembers(reg, NotZip, a);
  }

  /** The pruning of a concatenation is the concatenation of the prunings. */
  lemma WithoutZipsAppend(a: seq<Archive>, b: seq<Archive>)
    ensures WithoutZips(a + b) == WithoutZips(a) + WithoutZips(b)
  {
    FilterAppend(a, b, NotZip);
  }

  /** A registry without ZIP files is left alone, so pruning twice prunes once. */
  lemma WithoutZipsIdempotent(reg: seq<Archive>)
    ensures forall i | 0 <= i < |WithoutZips(reg)| :: !IsZipFile(WithoutZips(reg)[i])
    ensures WithoutZips(WithoutZips(reg)) == WithoutZips(reg)
  {
    FilterIdempotent(reg, NotZip);
  }

  /** The filter of a suffix: its first element, if accepted, then the filter of the rest. */
  lemma FilterAt<T>(v: seq<T>, k: nat, keep: T -> bool)
    requires k < |v|
    ensures Filter(v[k..], keep) == (if keep(v[k]) then [v[k]] else []) + Filter(v[k + 1..], keep)
  {
    assert v[k..][0] == v[k];
    assert v[k..][1..] == v[k + 1..];
  }

  /** Erasing a rejected element at the cursor leaves the filtered remainder unchanged. */
  lemma EraseStep<T>(v: seq<T>, k: nat, keep: T -> bool)
    requires k < |v| && !keep(v[k])
    ensures var w := v[..k] + v[k + 1..];
            w[..k] + Filter(w[k..], keep) == v[..k] + Filter(v[k..], keep)
  {
    var w := v[..k] + v[k + 1..];
    assert w[..k] == v[..k];
    assert w[k..] == v[k + 1..];
    FilterAt(v, k, keep);
  }

  /** Stepping over an accepted element moves it from the remainder to the kept prefix. */
  lemma KeepStep<T>(v: seq<T>, k: nat, keep: T -> bool)
    requires k < |v| && keep(v[k])
    ensures v[..k + 1] + Filter(v[k + 1..], keep) == v[..k] + Filter(v[k..], keep)
  {
    FilterAt(v, k, keep);
    assert v[..k + 1] == v[..k] + [v[k]];
  }

  /**
   `FileCache::CacheArchiveFile_Remove`: walks the list and erases every
   ZIP file in place, then returns the new size as a `Uint16`.
   */
  method CacheArchiveFileRemove(reg: seq<Archive>) returns (kept: seq<Archive>, count: uint16)
    ensures kept == WithoutZips(reg)
    ensures count == |kept| % 0x1_0000
  {
    kept := reg;
    var k := 0;
    while k < |kept|
      invariant k <= |kept|
      invariant kept[..k] + WithoutZips(kept[k..]) == WithoutZips(reg)
      decreases |kept| - k
    {
      if IsZipFile(kept[k]) {
        EraseStep(kept, k, NotZip);
        kept := kept[..k] + kept[k + 1..];
      } else {
        KeepStep(kept, k, NotZip);
        k := k + 1;
      }
    }
    assert kept[k..] == [] && kept[..k] == kept;
    count := |kept| % 0x1_0000;
  }
}
