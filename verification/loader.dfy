/**
 Loading resource files into the registry (`FileCache`): the three-place
 file resolver `Access`, `AddFile` with its capacity and duplicate checks
 and its classification of a file by extension and magic number, and
 `InitMultipleFiles` with its search for GL-node companion (GWA) files.
 */
module Loader {
  import opened Bytes
  import opened CStrings
  import opened Tables
  import Wad
  import Wad3
  import Pak
  import Zip
  import opened Registry

  /** A path as the C string that names it. */
  type Path = seq<byte>

  /** File contents; every file is shorter than 4 GiB, so its size fits the directory's `size` field. */
  type FileData = s: seq<byte> | |s| < TWO32

  /**
   What the loader sees of the machine: the files and folders that exist
   (by path), the data path set with `SetPath`, and the directory of the
   executable (`ProgrammPath()`).
   */
  datatype Env = Env(files: map<Path, FileData>, folders: map<Path, seq<seq<byte>>>, datapath: Path, exedir: Path)

  /** `access(p, F_OK) == 0`. */
  predicate Exists(env: Env, p: Path)
  {
    p in env.files || p in env.folders
  }

  //----------------------------------------------------------------------
  // Access: the three-place resolver
  //----------------------------------------------------------------------

  /**
   The file name `Access` looks for elsewhere: the text after the last
   backslash. Both of its `strrchr` calls look for a backslash, so a
   forward slash never separates anything here.
   */
  function Basename(f: Path): (b: Path)
    ensures BACKSLASH !in b
    ensures |b| <= |f| && b == f[|f| - |b|..]
    ensures BACKSLASH !in f ==> b == f
    ensures |b| < |f| ==> f[|f| - |b| - 1] == BACKSLASH
  {
    match LastIndexOf(f, BACKSLASH)
    case None => f
    case Some(i) => f[i + 1..]
  }

  /** `dir + '\\' + name`. */
  function Under(dir: Path, name: Path): Path
  {
    dir + [BACKSLASH] + name
  }

  /**
   `FileCache::Access(f)`: `f` itself when it exists, else the file name
   under the data path, else under the executable's directory, else NULL.
   */
  function Access(env: Env, f: Path): (r: Option<Path>)
    ensures r.Some? ==> Exists(env, r.value)
    ensures r.None? <==> !Exists(env, f) && !Exists(env, Under(env.datapath, Basename(f)))
                         && !Exists(env, Under(env.exedir, Basename(f)))
  {
    if Exists(env, f) then Some(f)
    else if Exists(env, Under(env.datapath, Basename(f))) then Some(Under(env.datapath, Basename(f)))
    else if Exists(env, Under(env.exedir, Basename(f))) then Some(Under(env.exedir, Basename(f)))
    else None
  }

  /** The resolver answers with the first place that exists, in the order it tries them. */
  lemma AccessOrder(env: Env, f: Path)
    requires Access(env, f).Some?
    ensures var p := Access(env, f).value;
            || (p == f)
            || (!Exists(env, f) && p == Under(env.datapath, Basename(f)))
            || (!Exists(env, f) && !Exists(env, Under(env.datapath, Basename(f))) && p == Under(env.exedir, Basename(f)))
  {
  }

  /** A path with forward slashes only is looked for, whole, under the data path. */
  lemma AccessKeepsForwardSlashes(env: Env, f: Path)
    requires BACKSLASH !in f && !Exists(env, f) && Exists(env, Under(env.datapath, f))
    ensures Access(env, f) == Some(env.datapath + [BACKSLASH] + f)
  {
  }

  //----------------------------------------------------------------------
  // Classification
  //----------------------------------------------------------------------

  const DEH: seq<byte> := [0x2E, 0x64, 0x65, 0x68]       // ".deh"
  const HHE: seq<byte> := [0x2E, 0x68, 0x68, 0x65]       // ".hhe"
  const LMP: seq<byte> := [0x2E, 0x6C, 0x6D, 0x70]       // ".lmp"
  const ZIP_SUFFIX: seq<byte> := [0x2E, 0x7A, 0x69, 0x70]  // ".zip"
  const PK3_SUFFIX: seq<byte> := [0x2E, 0x70, 0x6B, 0x33]  // ".pk3"
  const DEHACKED: seq<byte> := [0x44, 0x45, 0x48, 0x41, 0x43, 0x4B, 0x45, 0x44]
  const WAD2: seq<byte> := [0x57, 0x41, 0x44, 0x32]
  const WAD3: seq<byte> := [0x57, 0x41, 0x44, 0x33]

  /** What `AddFile` makes of a file. */
  datatype Kind =
      /** A `Wad` wrapping the whole file as one lump of this name. */
    | Single(lumpName: seq<byte>)
    | Directory
    | WadFile
    | Wad3File
    | PakFile
    | ZipFile
    | Unknown

  predicate IsSeparator(b: byte)
  {
    b == SLASH || b == BACKSLASH
  }

  /** The position of the last '/' or '\\', if any. */
  function LastSeparator(f: Path): (r: Option<nat>)
    ensures r.Some? ==> r.value < |f| && IsSeparator(f[r.value])
    ensures forall k | 0 <= k < |f| && (r.None? || r.value < k) :: !IsSeparator(f[k])
  {
    if |f| == 0 then None
    else if IsSeparator(f[|f| - 1]) then Some(|f| - 1)
    else LastSeparator(f[..|f| - 1])
  }

  /** `FIL_StripPath`: the file name after the last directory separator. */
  function StripPath(f: Path): (b: Path)
    ensures |b| <= |f| && b == f[|f| - |b|..]
    ensures forall k | 0 <= k < |b| :: !IsSeparator(b[k])
    ensures |b| < |f| ==> IsSeparator(f[|f| - |b| - 1])
    ensures (forall k | 0 <= k < |f| :: !IsSeparator(f[k])) ==> b == f
  {
    match LastSeparator(f)
    case None => f
    case Some(i) => f[i + 1..]
  }

  /** A name that ends in a suffix free of separators keeps that suffix when the path is stripped. */
  lemma StripPathKeepsSuffix(f: Path, suffix: seq<byte>)
    requires EndsWithIgnoringCase(f, suffix)
    requires forall k | 0 <= k < |suffix| :: !IsSeparator(suffix[k]) && Lower(suffix[k]) == suffix[k]
    ensures |StripPath(f)| >= |suffix|
  {
  }

  /**
   The lump name of a `.lmp` file from its stripped name `b`: `strncpy` into
   8 bytes, cut at `min(strlen - 4, 8)`, which drops the four-byte suffix.
   */
  function LmpLumpName(b: Path): (r: seq<byte>)
    requires |b| >= |LMP|
    ensures |r| <= Wad.NAME_SIZE && |r| <= |b| && r == b[..|r|]
    ensures |b| - |LMP| <= Wad.NAME_SIZE ==> b == r + b[|b| - |LMP|..]
    ensures |b| - |LMP| > Wad.NAME_SIZE ==> |r| == Wad.NAME_SIZE
  {
    b[..Min(|b| - 4, 8)]
  }

  /** The lump name a `.lmp` file is registered under. */
  function LmpName(fname: Path): (r: seq<byte>)
    requires EndsWithIgnoringCase(fname, LMP)
    ensures |StripPath(fname)| >= |LMP| && r == LmpLumpName(StripPath(fname))
  {
    StripPathKeepsSuffix(fname, LMP);
    LmpLumpName(StripPath(fname))
  }

  /**
   The checks on the name alone, in `AddFile`'s order: ".deh" and ".hhe"
   make a DEHACKED lump, ".lmp" a lump named after the file (all three
   ignoring case, on names of at least four bytes), and a trailing '/' a
   folder. `None` sends the file on to the magic-number test.
   */
  function NameKind(fname: Path): (r: Option<Kind>)
    requires |fname| > 0
    ensures EndsWithIgnoringCase(fname, DEH) || EndsWithIgnoringCase(fname, HHE) ==> r == Some(Single(DEHACKED))
    ensures EndsWithIgnoringCase(fname, LMP) ==> r == Some(Single(LmpName(fname)))
    ensures r == Some(Directory) <==> (!EndsWithIgnoringCase(fname, DEH) && !EndsWithIgnoringCase(fname, HHE)
                                       && !EndsWithIgnoringCase(fname, LMP) && fname[|fname| - 1] == SLASH)
    ensures r.None? <==> (!EndsWithIgnoringCase(fname, DEH) && !EndsWithIgnoringCase(fname, HHE)
                          && !EndsWithIgnoringCase(fname, LMP) && fname[|fname| - 1] != SLASH)
  {
    if EndsWithIgnoringCase(fname, DEH) || EndsWithIgnoringCase(fname, HHE) then
      assert !EndsWithIgnoringCase(fname, LMP) by {
        var t := fname[|fname| - 4..];
        assert Lower(t[1]) != Lower(LMP[1]) || Lower(t[2]) != Lower(LMP[2]);
      }
      Some(Single(DEHACKED))
    else if EndsWithIgnoringCase(fname, LMP) then Some(Single(LmpName(fname)))
    else if fname[|fname| - 1] == SLASH then Some(Directory)
    else None
  }

  /**
   The magic-number test: "IWAD" or "PWAD" make a `Wad`, "WAD2" or "WAD3" a
   `Wad3`, "PACK" a `Pak`, and "PK\3\4" or a ".zip"/".pk3" name a `ZipFile`;
   anything else is refused.
   */
  function MagicKind(fname: Path, magic: seq<byte>): (k: Kind)
    requires |magic| == 4
    ensures k == WadFile <==> magic == Wad.IWAD || magic == Wad.PWAD
    ensures k == Wad3File <==> magic == WAD2 || magic == WAD3
    ensures k == PakFile <==> magic == Pak.PACK
    ensures k == ZipFile <==> magic !in {Wad.IWAD, Wad.PWAD, WAD2, WAD3, Pak.PACK}
                              && (magic == Zip.PK34 || EndsWithIgnoringCase(fname, ZIP_SUFFIX)
                                  || EndsWithIgnoringCase(fname, PK3_SUFFIX))
    ensures !k.Single? && !k.Directory?
  {
    if magic == Wad.IWAD || magic == Wad.PWAD then WadFile
    else if magic == WAD2 || magic == WAD3 then Wad3File
    else if magic == Pak.PACK then PakFile
    else if magic == Zip.PK34 || EndsWithIgnoringCase(fname, ZIP_SUFFIX) || EndsWithIgnoringCase(fname, PK3_SUFFIX) then ZipFile
    else Unknown
  }

  /** A ZIP named ".zip" whose first bytes say "PWAD" is opened as a WAD: the magic wins. */
  lemma MagicBeforeExtension(fname: Path)
    requires EndsWithIgnoringCase(fname, ZIP_SUFFIX)
    ensures MagicKind(fname, Wad.PWAD) == WadFile
    ensures MagicKind(fname, [0, 0, 0, 0]) == ZipFile
  {
  }

  //----------------------------------------------------------------------
  // Opening
  //----------------------------------------------------------------------

  /** What opening a file comes to. */
  datatype Opening =
      /** Opened: the WADs it carried (pushed while it opened) and the archive itself. */
    | OpenedAs(nested: seq<Archive>, archive: Archive)
    | Refused
      /** `I_Error` while it opened. */
    | Stop
      /** Behaviour the source leaves undefined (a read past a buffer, say). */
    | Crash

  /** A directory opened out of `Opened` storage becomes an archive of that path. */
  function FromOpened<T>(o: Opened<T>, make: T -> Archive): (r: Opening)
    ensures r.OpenedAs? <==> o.Opened?
    ensures r.OpenedAs? ==> r.nested == [] && r.archive == make(o.dir)
  {
    match o
    case Opened(dir) => OpenedAs([], make(dir))
    case Rejected => Refused
    case Undefined => Crash
  }

  /** A WAD taken out of a ZIP, registered under its entry name. */
  function NestedArchive(w: Zip.Nested): Archive
  {
    Archive(w.name, WadDir(w.dir))
  }

  /**
   `ZipFile::Open`: the central-directory walk, then, when an accepted entry
   is a ".wad", the nested loader, whose WADs are registered before the
   ZIP itself.
   */
  function OpenZip(path: Path, data: seq<byte>, inflate: Zip.Inflater): (r: Opening)
    ensures var z := Zip.Open(data);
            && (r.OpenedAs? ==> z.Opened? && r.archive == Archive(path, ZipDir(z.dir.items)))
            && (r.OpenedAs? && !z.dir.hasWad ==> r.nested == [])
            && (z.Rejected? ==> r == Refused)
    ensures var z := Zip.Open(data);
            r.OpenedAs? && z.dir.hasWad ==>
              var l := Zip.LoadNested(data, z.dir.items, 0, inflate);
              l.Loaded? && r.nested == NestedArchives(l.wads)
    ensures var z := Zip.Open(data);
            z.Opened? && z.dir.hasWad && Zip.LoadNested(data, z.dir.items, 0, inflate).LoadFatal? ==> r == Stop
  {
    match Zip.Open(data)
    case Rejected => Refused
    case Undefined => Crash
    case Opened(d) =>
      if !d.hasWad then OpenedAs([], Archive(path, ZipDir(d.items)))
      else
        match Zip.LoadNested(data, d.items, 0, inflate)
        case Loaded(ws) => OpenedAs(NestedArchives(ws), Archive(path, ZipDir(d.items)))
        case LoadFatal => Stop
        case LoadUndefined => Crash
  }

  /** The nested WADs, each registered under its entry name, in entry order. */
  function NestedArchives(ws: seq<Zip.Nested>): (r: seq<Archive>)
    ensures |r| == |ws| && forall i | 0 <= i < |ws| :: r[i] == NestedArchive(ws[i])
  {
    seq(|ws|, i requires 0 <= i < |ws| => NestedArchive(ws[i]))
  }

  /**
   Opening the file `fname` resolved to `name`. A wrapper or folder opens
   when the resolved path is a file or folder; anything else is read for
   its magic number first. A path that did not resolve opens nothing: the
   source passes NULL to `fopen` (or `Create`, `VDir::Open`) there, which is
   taken to fail.
   */
  function Open(env: Env, name: Option<Path>, fname: Path, inflate: Zip.Inflater): (r: Opening)
    requires |fname| > 0
  {
    match NameKind(fname)
    case Some(Single(lump)) =>
      if name.Some? && name.value in env.files then
        OpenedAs([], Archive(name.value, WadDir(Wad.CreateSingle(|env.files[name.value]|, lump))))
      else Refused
    case Some(Directory) =>
      if name.Some? && name.value in env.folders then OpenedAs([], Archive(name.value, Registry.Folder(env.folders[name.value])))
      else Refused
    case None =>
      if name.None? || name.value !in env.files then Refused
      else
        var path := name.value;
        var data := env.files[path];
        if |data| < 4 then Crash
        else
          match MagicKind(fname, data[..4])
          case WadFile => FromOpened(Wad.OpenDisk(data), (dir: seq<Wad.Lump>) => Archive(path, WadDir(dir)))
          case Wad3File => FromOpened(Wad3.Open(data), (dir: seq<Wad3.Item>) => Archive(path, Wad3Dir(dir)))
          case PakFile => FromOpened(Pak.Open(data), (dir: seq<Pak.Item>) => Archive(path, PakDir(dir)))
          case ZipFile => OpenZip(path, data, inflate)
          case Unknown => Refused
  }

  //----------------------------------------------------------------------
  // AddFile
  //----------------------------------------------------------------------

  /** What `AddFile` comes to: the registry after the call and the value returned. */
  datatype Added =
    | Added(reg: seq<Archive>, result: int)
    | AddFatal
    | AddUndefined

  /** The first registered file whose name is byte for byte `fname`, or -1. */
  function FirstNamedFile(reg: seq<Archive>, fname: Path, k: nat): (i: int)
    requires k <= |reg|
    ensures i == -1 || k <= i < |reg|
    ensures i != -1 ==> reg[i].filename == fname
    ensures forall j | k <= j < |reg| && (i == -1 || j < i) :: reg[j].filename != fname
    decreases |reg| - k
  {
    if k == |reg| then -1
    else if reg[k].filename == fname then k
    else FirstNamedFile(reg, fname, k + 1)
  }

  /**
   `FileCache::AddFile(fname, silent)`: -1 when the registry is full; the
   index of a file already registered under exactly this name; -1 when the
   file cannot be found and `silent` is unset; otherwise the file is opened
   and, on success, pushed after any WADs it carried, ZIP files are pruned,
   and the new registry size (a `Uint16`) is returned.
   */
  function AddFile(env: Env, reg: seq<Archive>, fname: Path, silent: bool, maxFiles: nat, inflate: Zip.Inflater)
    : (r: Added)
    ensures |reg| >= maxFiles ==> r == Added(reg, -1)
    ensures r.Added? && r.result == -1 ==> r.reg == reg
    ensures r.Added? && r.reg != reg ==> r.result == |r.reg| % 0x1_0000
    ensures r.Added? && r.result != -1 && FirstNamedFile(reg, fname, 0) == -1 ==> r.result == |r.reg| % 0x1_0000
    ensures r.Added? && r.reg != reg ==> |fname| > 0 && r == AddOpened(reg, Open(env, Access(env, fname), fname, inflate))
  {
    if |reg| >= maxFiles then Added(reg, -1)
    else
      var name := Access(env, fname);
      var dup := FirstNamedFile(reg, fname, 0);
      if dup != -1 then Added(reg, dup)
      else if name.None? && !silent then Added(reg, -1)
      else if |fname| == 0 then AddUndefined
      else AddOpened(reg, Open(env, name, fname, inflate))
  }

  /** What `AddFile` makes of the attempt to open the file. */
  function AddOpened(reg: seq<Archive>, o: Opening): (r: Added)
    ensures r.Added? && r.result != -1 ==> o.OpenedAs? && r == Register(reg, o.nested + [o.archive])
    ensures o.Refused? ==> r == Added(reg, -1)
  {
    match o
    case Refused => Added(reg, -1)
    case Stop => AddFatal
    case Crash => AddUndefined
    case OpenedAs(nested, a) => Register(reg, nested + [a])
  }

  /** The push of newly opened archives, followed by `CacheArchiveFile_Remove`. */
  function Register(reg: seq<Archive>, pushed: seq<Archive>): (r: Added)
    ensures r.Added? && r.result == |r.reg| % 0x1_0000
    ensures r.reg == WithoutZips(reg) + WithoutZips(pushed)
    ensures forall i | 0 <= i < |r.reg| :: !IsZipFile(r.reg[i])
  {
    WithoutZipsAppend(reg, pushed);
    WithoutZipsIdempotent(reg + pushed);
    var all := WithoutZips(reg + pushed);
    Added(all, |all| % 0x1_0000)
  }

  /**
   A file that is added leaves the files registered before it, less any ZIP
   files, in front and in order; after them come the WADs the file carried
   and then the file itself, again less any ZIP file; no ZIP file is left.
   */
  lemma AddFileKeepsOrder(env: Env, reg: seq<Archive>, fname: Path, silent: bool, maxFiles: nat, inflate: Zip.Inflater)
    requires var r := AddFile(env, reg, fname, silent, maxFiles, inflate); r.Added? && r.reg != reg
    ensures var r := AddFile(env, reg, fname, silent, maxFiles, inflate);
            && |WithoutZips(reg)| <= |r.reg| && r.reg[..|WithoutZips(reg)|] == WithoutZips(reg)
            && forall i | 0 <= i < |r.reg| :: !IsZipFile(r.reg[i])
    ensures |fname| > 0
    ensures var o := Open(env, Access(env, fname), fname, inflate);
            o.OpenedAs? && AddFile(env, reg, fname, silent, maxFiles, inflate).reg
                           == WithoutZips(reg) + WithoutZips(o.nested) + WithoutZips([o.archive])
  {
    var o := Open(env, Access(env, fname), fname, inflate);
    OpenedKeepsOrder(reg, o);
  }

  /** What an opening that `AddFile` registers leaves in the registry. */
  lemma OpenedKeepsOrder(reg: seq<Archive>, o: Opening)
    requires var r := AddOpened(reg, o); r.Added? && r.reg != reg
    ensures var r := AddOpened(reg, o);
            && o.OpenedAs?
            && r.reg == WithoutZips(reg) + WithoutZips(o.nested) + WithoutZips([o.archive])
            && |WithoutZips(reg)| <= |r.reg| && r.reg[..|WithoutZips(reg)|] == WithoutZips(reg)
            && forall i | 0 <= i < |r.reg| :: !IsZipFile(r.reg[i])
  {
    WithoutZipsAppend(o.nested, [o.archive]);
  }

  /**
   A ZIP file whose extension is "zip" is itself pruned at once when it is
   added: what stays of it is the WADs it carried, after the files
   registered before it.
   */
  lemma AddFileZipLeavesNested(env: Env, reg: seq<Archive>, fname: Path, silent: bool, maxFiles: nat,
                               inflate: Zip.Inflater)
    requires var r := AddFile(env, reg, fname, silent, maxFiles, inflate); r.Added? && r.reg != reg
    requires |fname| > 0 && IsZipFile(Open(env, Access(env, fname), fname, inflate).archive)
    ensures AddFile(env, reg, fname, silent, maxFiles, inflate).reg
              == WithoutZips(reg) + WithoutZips(Open(env, Access(env, fname), fname, inflate).nested)
  {
    AddFileKeepsOrder(env, reg, fname, silent, maxFiles, inflate);
    PrunedZip(Open(env, Access(env, fname), fname, inflate).archive);
  }

  lemma PrunedZip(a: Archive)
    requires IsZipFile(a)
    ensures WithoutZips([a]) == []
  {
    WithoutZipsMembers([a], a);
  }

  /** A file already registered under exactly this name is not opened again: its index comes back. */
  lemma AddFileDuplicate(env: Env, reg: seq<Archive>, fname: Path, silent: bool, maxFiles: nat,
                         inflate: Zip.Inflater, i: nat)
    requires |reg| < maxFiles && i < |reg| && reg[i].filename == fname
    ensures var r := AddFile(env, reg, fname, silent, maxFiles, inflate);
            r.Added? && r.reg == reg && r.result <= i && reg[r.result].filename == fname
  {
  }

  /**
   The duplicate test is exact: a file registered under the upper-case
   spelling of a name with a lower-case letter is no duplicate for
   `AddFile`, although `InitMultipleFiles` counts it as already loaded.
   */
  lemma DuplicateTestIsCaseSensitive(env: Env, a: Archive, fname: Path, silent: bool, maxFiles: nat,
                                     inflate: Zip.Inflater)
    requires NulFree(fname) && a.filename == UpperAll(fname)
    requires exists k | 0 <= k < |fname| :: IsLowerLetter(fname[k])
    ensures FirstNamedFile([a], fname, 0) == -1
    ensures maxFiles > 1 ==> AddFile(env, [a], fname, silent, maxFiles, inflate) != Added([a], 0)
    ensures AlreadyLoaded([a], fname)
  {
    var k :| 0 <= k < |fname| && IsLowerLetter(fname[k]);
    UpperSpellingDiffers(a, fname, k);
    if maxFiles > 1 {
      FreshNameIsNoDuplicate(env, [a], fname, silent, maxFiles, inflate);
    }
    UpperSpellingLoaded(a, fname);
  }

  lemma UpperSpellingDiffers(a: Archive, fname: Path, k: nat)
    requires a.filename == UpperAll(fname) && k < |fname| && IsLowerLetter(fname[k])
    ensures FirstNamedFile([a], fname, 0) == -1
  {
    assert a.filename[k] != fname[k];
  }

  lemma UpperSpellingLoaded(a: Archive, fname: Path)
    requires NulFree(fname) && a.filename == UpperAll(fname)
    ensures AlreadyLoaded([a], fname)
  {
    CaseFoldKeepsNul(fname);
    CStrOfNulFree(fname);
    CStrOfNulFree(a.filename);
    assert EqualIgnoringCase(CStr([a][0].filename), CStr(fname));
  }

  /** A name no registered file has exactly gets no registered file's index back, not even 0. */
  lemma FreshNameIsNoDuplicate(env: Env, reg: seq<Archive>, fname: Path, silent: bool, maxFiles: nat,
                               inflate: Zip.Inflater)
    requires FirstNamedFile(reg, fname, 0) == -1 && 0 < |reg| < 0x1_0000 && |reg| < maxFiles
    ensures AddFile(env, reg, fname, silent, maxFiles, inflate) != Added(reg, 0)
  {
    var r := AddFile(env, reg, fname, silent, maxFiles, inflate);
    if r.Added? && r.reg == reg && r.result != -1 {
      assert r.result == |r.reg| % 0x1_0000;
      SmallCount(|reg|);
      assert r.result != 0;
    }
  }

  lemma SmallCount(n: nat)
    requires n < 0x1_0000
    ensures n % 0x1_0000 == n
  {
  }

  /** A file that cannot be found anywhere is refused unless the call is silent. */
  lemma AddFileMissing(env: Env, reg: seq<Archive>, fname: Path, maxFiles: nat, inflate: Zip.Inflater)
    requires |reg| < maxFiles && Access(env, fname).None?
    requires forall i | 0 <= i < |reg| :: reg[i].filename != fname
    ensures AddFile(env, reg, fname, false, maxFiles, inflate) == Added(reg, -1)
    ensures AddFile(env, reg, fname, true, maxFiles, inflate) == Added(reg, -1) || |fname| == 0
  {
    assert FirstNamedFile(reg, fname, 0) == -1;
    if |fname| > 0 {
      var k := NameKind(fname);
      assert k.Some? ==> k.value.Single? || k.value.Directory?;
    }
  }

  /** A ".deh" or ".hhe" file that is found becomes a single lump "DEHACKED" covering the file. */
  lemma AddFileDehacked(env: Env, reg: seq<Archive>, fname: Path, silent: bool, maxFiles: nat, inflate: Zip.Inflater)
    requires |reg| < maxFiles && (forall i | 0 <= i < |reg| :: reg[i].filename != fname)
    requires EndsWithIgnoringCase(fname, DEH) || EndsWithIgnoringCase(fname, HHE)
    requires Access(env, fname).Some? && Access(env, fname).value in env.files
    ensures var p := Access(env, fname).value;
            var a := Archive(p, WadDir(Wad.CreateSingle(|env.files[p]|, DEHACKED)));
            AddFile(env, reg, fname, silent, maxFiles, inflate)
              == Added(WithoutZips(reg + [a]), |WithoutZips(reg + [a])| % 0x1_0000)
  {
    var p := Access(env, fname).value;
    var a := Archive(p, WadDir(Wad.CreateSingle(|env.files[p]|, DEHACKED)));
    assert |fname| > 0 && NameKind(fname) == Some(Single(DEHACKED));
    assert Open(env, Access(env, fname), fname, inflate) == OpenedAs([], a);
    AddFileOpened(env, reg, fname, silent, maxFiles, inflate);
    assert [] + [a] == [a];
  }

  /** Once the file opens, `AddFile` registers what it opened. */
  lemma AddFileOpened(env: Env, reg: seq<Archive>, fname: Path, silent: bool, maxFiles: nat, inflate: Zip.Inflater)
    requires |reg| < maxFiles && (forall i | 0 <= i < |reg| :: reg[i].filename != fname)
    requires Access(env, fname).Some? && |fname| > 0
    requires Open(env, Access(env, fname), fname, inflate).OpenedAs?
    ensures var o := Open(env, Access(env, fname), fname, inflate);
            AddFile(env, reg, fname, silent, maxFiles, inflate) == Register(reg, o.nested + [o.archive])
  {
    assert FirstNamedFile(reg, fname, 0) == -1;
  }

  /** A WAD file found on disk is opened from its own bytes and appended after the registry. */
  lemma AddFileWad(env: Env, reg: seq<Archive>, fname: Path, silent: bool, maxFiles: nat, inflate: Zip.Inflater)
    requires |reg| < maxFiles && (forall i | 0 <= i < |reg| :: reg[i].filename != fname)
    requires |fname| > 0 && NameKind(fname).None?
    requires Access(env, fname).Some? && Access(env, fname).value in env.files
    requires var data := env.files[Access(env, fname).value];
             |data| >= Wad.HEADER_SIZE && (data[..4] == Wad.IWAD || data[..4] == Wad.PWAD) && Wad.DirectoryFits(data)
    ensures var p := Access(env, fname).value;
            var a := Archive(p, WadDir(Wad.OpenDisk(env.files[p]).dir));
            AddFile(env, reg, fname, silent, maxFiles, inflate)
              == Added(WithoutZips(reg + [a]), |WithoutZips(reg + [a])| % 0x1_0000)
  {
    var p := Access(env, fname).value;
    var a := Archive(p, WadDir(Wad.OpenDisk(env.files[p]).dir));
    assert Open(env, Access(env, fname), fname, inflate) == OpenedAs([], a);
    AddFileOpened(env, reg, fname, silent, maxFiles, inflate);
    assert [] + [a] == [a];
  }

  //----------------------------------------------------------------------
  // InitMultipleFiles
  //----------------------------------------------------------------------

  /** The GWA extensions tried, in order, as the source lists them. */
  const GWA_EXTS: seq<seq<byte>> := [
    [0x67, 0x77, 0x61],  // "gwa"
    [0x47, 0x57, 0x41],  // "GWA"
    [0x47, 0x77, 0x61],  // "Gwa"
    [0x67, 0x57, 0x61],  // "gWa"
    [0x47, 0x77, 0x41],  // "GwA"
    [0x67, 0x57, 0x41],  // "gWA"
    [0x47, 0x57, 0x61],  // "GWa"
    [0x47, 0x77, 0x41]   // "GwA"
  ]

  const LEGACY_WAD: seq<byte> := [0x6C, 0x65, 0x67, 0x61, 0x63, 0x79, 0x2E, 0x77, 0x61, 0x64]  // "legacy.wad"

  /** `GWA_Skip_Files`: the name contains "legacy.wad", ignoring case. */
  predicate GwaSkip(f: Path)
  {
    Contains(LowerAll(f), LEGACY_WAD)
  }

  /**
   The name without its last three characters (the whole name when it is
   shorter: `length() - 3` wraps around and `substr` keeps everything).
   */
  function GwaBase(f: Path): (b: Path)
    ensures |f| >= 3 ==> |b| == |f| - 3 && b + f[|f| - 3..] == f
    ensures |f| < 3 ==> b == f
  {
    if |f| >= 3 then f[..|f| - 3] else f
  }

  /**
   The GWA candidates for a file, in the order they are tried: the name with
   its last three characters replaced by each spelling of "gwa" (appended
   to a name shorter than three).
   */
  function GwaCandidates(f: Path): (cs: seq<Path>)
    ensures |cs| == |GWA_EXTS|
    ensures forall i | 0 <= i < |cs| :: cs[i] == GwaBase(f) + GWA_EXTS[i]
    ensures forall i | 0 <= i < |cs| :: |cs[i]| >= 3 && cs[i][|cs[i]| - 3..] == GWA_EXTS[i]
    ensures forall i | 0 <= i < |cs| :: EndsWithIgnoringCase(cs[i], Zip.GWA_EXT)
    ensures |f| >= 3 ==> forall i | 0 <= i < |cs| :: |cs[i]| == |f| && cs[i][..|f| - 3] == f[..|f| - 3]
    ensures |f| < 3 ==> forall i | 0 <= i < |cs| :: |cs[i]| == |f| + 3 && cs[i][..|f|] == f
  {
    GwaExtensionsAsListed();
    seq(|GWA_EXTS|, i requires 0 <= i < |GWA_EXTS| => GwaBase(f) + GWA_EXTS[i])
  }

  /** Every candidate ends in "gwa" in some case, but "gwA" is never tried and "GwA" is tried twice. */
  lemma GwaExtensionsAsListed()
    ensures forall i | 0 <= i < |GWA_EXTS| :: EqualIgnoringCase(GWA_EXTS[i], Zip.GWA_EXT)
    ensures forall i | 0 <= i < |GWA_EXTS| :: GWA_EXTS[i] != [0x67, 0x77, 0x41]
    ensures GWA_EXTS[4] == GWA_EXTS[7]
  {
  }

  /** Where the GWA search ended: the registry and the candidate that was added, if any. */
  datatype GwaFound =
    | GwaDone(reg: seq<Archive>, found: Option<nat>)
    | GwaFatal
    | GwaUndefined

  /**
   What adding each GWA candidate silently would come to. A candidate that
   is not added leaves the registry as it was, so every candidate the search
   reaches is tried against the same registry.
   */
  function GwaTries(env: Env, reg: seq<Archive>, f: Path, maxFiles: nat, inflate: Zip.Inflater): (ts: seq<Added>)
    ensures |ts| == |GWA_EXTS|
    ensures forall j | 0 <= j < |ts| :: ts[j] == AddFile(env, reg, GwaCandidates(f)[j], true, maxFiles, inflate)
  {
    var cs := GwaCandidates(f);
    seq(|cs|, j requires 0 <= j < |cs| => AddFile(env, reg, cs[j], true, maxFiles, inflate))
  }

  /** Whether an attempt failed in the way that lets the search go on. */
  predicate NotAdded(t: Added)
  {
    t.Added? && t.result == -1
  }

  /**
   The GWA search from candidate `k` on: it stops at the first candidate
   that is added (any result but -1), or at a fatal error.
   */
  function GwaSearch(reg: seq<Archive>, tries: seq<Added>, k: nat): (r: GwaFound)
    requires k <= |tries|
    ensures r.GwaDone? && r.found.None? ==> r.reg == reg && forall j | k <= j < |tries| :: NotAdded(tries[j])
    ensures r.GwaDone? && r.found.Some? ==>
              && k <= r.found.value < |tries|
              && tries[r.found.value].Added? && tries[r.found.value].result != -1
              && r.reg == tries[r.found.value].reg
              && forall j | k <= j < r.found.value :: NotAdded(tries[j])
    ensures !r.GwaDone? ==> exists j | k <= j < |tries| :: !tries[j].Added? && forall i | k <= i < j :: NotAdded(tries[i])
    decreases |tries| - k
  {
    if k == |tries| then GwaDone(reg, None)
    else
      match tries[k]
      case AddFatal => GwaFatal
      case AddUndefined => GwaUndefined
      case Added(reg1, res) =>
        if res != -1 then GwaDone(reg1, Some(k))
        else GwaSearch(reg, tries, k + 1)
  }

  /** What `InitMultipleFiles` comes to: the registry and the value returned. */
  datatype Init =
    | Init(reg: seq<Archive>, ok: bool)
    | InitFatal
    | InitUndefined

  /** A registered file has this name, ignoring case (`stricmp`). */
  predicate AlreadyLoaded(reg: seq<Archive>, f: Path)
  {
    exists i | 0 <= i < |reg| :: EqualIgnoringCase(CStr(reg[i].filename), CStr(f))
  }

  /** The file itself: skipped (as a success) when already loaded, else added loudly. */
  function MainAdd(env: Env, reg: seq<Archive>, f: Path, maxFiles: nat, inflate: Zip.Inflater): (r: Added)
    ensures AlreadyLoaded(reg, f) ==> r == Added(reg, 0)
    ensures !AlreadyLoaded(reg, f) ==> r == AddFile(env, reg, f, false, maxFiles, inflate)
  {
    if AlreadyLoaded(reg, f) then Added(reg, 0) else AddFile(env, reg, f, false, maxFiles, inflate)
  }

  /**
   One iteration of `InitMultipleFiles`: the file is added unless a file of
   that name (in any case) is registered, and then, in OpenGL mode
   (`rendermode == 1`), its GWA candidates are tried unless the name
   contains "legacy.wad".
   */
  function LoadOne(env: Env, reg: seq<Archive>, f: Path, rendermode: int, maxFiles: nat, inflate: Zip.Inflater)
    : (r: Init)
    ensures r.Init? && AlreadyLoaded(reg, f) ==> r.ok
    ensures r.Init? && !AlreadyLoaded(reg, f) ==>
              var a := AddFile(env, reg, f, false, maxFiles, inflate);
              a.Added? && (r.ok <==> a.result != -1) && (rendermode != 1 || GwaSkip(f) ==> r.reg == a.reg)
    ensures r.Init? && AlreadyLoaded(reg, f) && (rendermode != 1 || GwaSkip(f)) ==> r.reg == reg
  {
    var main := MainAdd(env, reg, f, maxFiles, inflate);
    match main
    case AddFatal => InitFatal
    case AddUndefined => InitUndefined
    case Added(reg1, res) =>
      var ok := AlreadyLoaded(reg, f) || res != -1;
      if rendermode != 1 || GwaSkip(f) then Init(reg1, ok)
      else
        match GwaSearch(reg1, GwaTries(env, reg1, f, maxFiles, inflate), 0)
        case GwaFatal => InitFatal
        case GwaUndefined => InitUndefined
        case GwaDone(reg2, _) => Init(reg2, ok)
  }

  /**
   In OpenGL mode, unless the name contains "legacy.wad", the file is
   followed by the first of its GWA candidates that adds (silently), each
   tried against the registry the file itself left; when none adds, that
   registry stays as it is.
   */
  lemma LoadOneGwa(env: Env, reg: seq<Archive>, f: Path, maxFiles: nat, inflate: Zip.Inflater)
    requires LoadOne(env, reg, f, 1, maxFiles, inflate).Init? && !GwaSkip(f)
    ensures MainAdd(env, reg, f, maxFiles, inflate).Added?
    ensures var reg1 := MainAdd(env, reg, f, maxFiles, inflate).reg;
            var r := LoadOne(env, reg, f, 1, maxFiles, inflate);
            || ((forall j | 0 <= j < |GWA_EXTS| :: NotAdded(AddFile(env, reg1, GwaCandidates(f)[j], true, maxFiles, inflate)))
                && r.reg == reg1)
            || (exists j | 0 <= j < |GWA_EXTS| ::
                  && (forall i | 0 <= i < j :: NotAdded(AddFile(env, reg1, GwaCandidates(f)[i], true, maxFiles, inflate)))
                  && var t := AddFile(env, reg1, GwaCandidates(f)[j], true, maxFiles, inflate);
                     t.Added? && t.result != -1 && r.reg == t.reg)
  {
    var reg1 := MainAdd(env, reg, f, maxFiles, inflate).reg;
    var tries := GwaTries(env, reg1, f, maxFiles, inflate);
    var g := GwaSearch(reg1, tries, 0);
    assert LoadOne(env, reg, f, 1, maxFiles, inflate).reg == g.reg;
    if g.found.Some? {
      var j := g.found.value;
      assert forall i | 0 <= i < j :: NotAdded(tries[i]);
    }
  }

  /**
   The loop of `InitMultipleFiles` with its body `step` left open: every
   file in turn, each against the registry the files before it left; the
   result is false when some iteration reported failure.
   */
  function InitLoop(step: (seq<Archive>, Path) -> Init, reg: seq<Archive>, files: seq<Path>): (r: Init)
    ensures |files| == 0 ==> r == Init(reg, true)
    decreases |files|
  {
    if |files| == 0 then Init(reg, true)
    else
      match InitLoop(step, reg, files[..|files| - 1])
      case InitFatal => InitFatal
      case InitUndefined => InitUndefined
      case Init(reg1, ok1) =>
        match step(reg1, files[|files| - 1])
        case Init(reg2, ok2) => Init(reg2, ok1 && ok2)
        case InitFatal => InitFatal
        case InitUndefined => InitUndefined
  }

  /** Iteration `i` of the loop, against the registry the iterations before it left. */
  function LoopStep(step: (seq<Archive>, Path) -> Init, reg: seq<Archive>, files: seq<Path>, i: nat): Init
    requires i < |files|
  {
    match InitLoop(step, reg, files[..i])
    case Init(reg1, _) => step(reg1, files[i])
    case InitFatal => InitFatal
    case InitUndefined => InitUndefined
  }

  /**
   A loop that ends has run every iteration, and it reports success
   exactly when every iteration did.
   */
  lemma {:induction false} InitLoopStepwise(step: (seq<Archive>, Path) -> Init, reg: seq<Archive>, files: seq<Path>)
    requires InitLoop(step, reg, files).Init?
    ensures forall i | 0 <= i < |files| :: LoopStep(step, reg, files, i).Init?
    ensures InitLoop(step, reg, files).ok <==> forall i | 0 <= i < |files| :: LoopStep(step, reg, files, i).ok
    decreases |files|
  {
    if |files| > 0 {
      var n := |files| - 1;
      var front := files[..n];
      InitLoopStepwise(step, reg, front);
      forall i | 0 <= i < n
        ensures LoopStep(step, reg, files, i) == LoopStep(step, reg, front, i)
      {
        assert files[..i] == front[..i];
      }
      var last := step(InitLoop(step, reg, front).reg, files[n]);
      assert LoopStep(step, reg, files, n) == last;
      assert InitLoop(step, reg, files).ok == (InitLoop(step, reg, front).ok && last.ok);
    }
  }

  /** Iterations that each leave the registry as they found it, successfully, leave it for the whole loop. */
  lemma {:induction false} InitLoopUnchanged(step: (seq<Archive>, Path) -> Init, reg: seq<Archive>, files: seq<Path>)
    requires forall i | 0 <= i < |files| :: step(reg, files[i]) == Init(reg, true)
    ensures InitLoop(step, reg, files) == Init(reg, true)
    decreases |files|
  {
    if |files| > 0 {
      var n := |files| - 1;
      assert forall i | 0 <= i < n :: files[..n][i] == files[i];
      InitLoopUnchanged(step, reg, files[..n]);
    }
  }

  /** One iteration of `InitMultipleFiles`, as a value. */
  function LoadStep(env: Env, rendermode: int, maxFiles: nat, inflate: Zip.Inflater): (step: (seq<Archive>, Path) -> Init)
    ensures forall reg, f :: step(reg, f) == LoadOne(env, reg, f, rendermode, maxFiles, inflate)
  {
    (reg: seq<Archive>, f: Path) => LoadOne(env, reg, f, rendermode, maxFiles, inflate)
  }

  /** `FileCache::InitMultipleFiles(filenames)`: the loop with `LoadOne` as its body. */
  function InitMultipleFiles(env: Env, reg: seq<Archive>, files: seq<Path>, rendermode: int, maxFiles: nat,
                             inflate: Zip.Inflater): (r: Init)
    ensures |files| == 0 ==> r == Init(reg, true)
  {
    InitLoop(LoadStep(env, rendermode, maxFiles, inflate), reg, files)
  }

  /** What the loop has come to when it reaches file `i`. */
  function InitBefore(env: Env, reg: seq<Archive>, files: seq<Path>, i: nat, rendermode: int, maxFiles: nat,
                      inflate: Zip.Inflater): Init
    requires i <= |files|
  {
    InitMultipleFiles(env, reg, files[..i], rendermode, maxFiles, inflate)
  }

  /**
   A call that returns has loaded every file in turn, each against the
   registry the files before it left, and it reports success exactly when
   every file was already loaded or added.
   */
  lemma InitStepwise(env: Env, reg: seq<Archive>, files: seq<Path>, rendermode: int, maxFiles: nat, inflate: Zip.Inflater)
    requires InitMultipleFiles(env, reg, files, rendermode, maxFiles, inflate).Init?
    ensures forall i | 0 <= i < |files| ::
              var b := InitBefore(env, reg, files, i, rendermode, maxFiles, inflate);
              b.Init? && LoadOne(env, b.reg, files[i], rendermode, maxFiles, inflate).Init?
    ensures InitMultipleFiles(env, reg, files, rendermode, maxFiles, inflate).ok
            <==> forall i | 0 <= i < |files| ::
                   var b := InitBefore(env, reg, files, i, rendermode, maxFiles, inflate);
                   LoadOne(env, b.reg, files[i], rendermode, maxFiles, inflate).ok
  {
    var step := LoadStep(env, rendermode, maxFiles, inflate);
    InitLoopStepwise(step, reg, files);
    forall i | 0 <= i < |files|
      ensures var b := InitBefore(env, reg, files, i, rendermode, maxFiles, inflate);
              b.Init? && LoopStep(step, reg, files, i) == LoadOne(env, b.reg, files[i], rendermode, maxFiles, inflate)
    {
      assert LoopStep(step, reg, files, i).Init?;
    }
  }

  /** A file that cannot be found and is not registered when its turn comes makes the whole call report failure. */
  lemma InitMissingFileFails(env: Env, reg: seq<Archive>, files: seq<Path>, i: nat, rendermode: int, maxFiles: nat,
                             inflate: Zip.Inflater)
    requires i < |files| && Access(env, files[i]).None?
    requires InitMultipleFiles(env, reg, files, rendermode, maxFiles, inflate).Init?
    requires var b := InitBefore(env, reg, files, i, rendermode, maxFiles, inflate);
             b.Init? && !AlreadyLoaded(b.reg, files[i])
    ensures !InitMultipleFiles(env, reg, files, rendermode, maxFiles, inflate).ok
  {
    InitStepwise(env, reg, files, rendermode, maxFiles, inflate);
    var b := InitBefore(env, reg, files, i, rendermode, maxFiles, inflate);
    LoadOneMissingFails(env, b.reg, files[i], rendermode, maxFiles, inflate);
  }

  /** A file that cannot be found and is not registered fails its iteration. */
  lemma LoadOneMissingFails(env: Env, reg: seq<Archive>, f: Path, rendermode: int, maxFiles: nat, inflate: Zip.Inflater)
    requires !AlreadyLoaded(reg, f) && Access(env, f).None?
    requires LoadOne(env, reg, f, rendermode, maxFiles, inflate).Init?
    ensures !LoadOne(env, reg, f, rendermode, maxFiles, inflate).ok
  {
    if |reg| < maxFiles {
      forall i | 0 <= i < |reg| ensures reg[i].filename != f {
        if reg[i].filename == f {
          CStrEqual(reg[i].filename, f);
        }
      }
      AddFileMissing(env, reg, f, maxFiles, inflate);
    }
  }

  /**
   Without OpenGL, files that are all registered already (in any case)
   change nothing, and the call reports success.
   */
  lemma InitAllLoaded(env: Env, reg: seq<Archive>, files: seq<Path>, rendermode: int, maxFiles: nat,
                      inflate: Zip.Inflater)
    requires rendermode != 1
    requires forall i | 0 <= i < |files| :: AlreadyLoaded(reg, files[i])
    ensures InitMultipleFiles(env, reg, files, rendermode, maxFiles, inflate) == Init(reg, true)
  {
    var step := LoadStep(env, rendermode, maxFiles, inflate);
    forall i | 0 <= i < |files|
      ensures step(reg, files[i]) == Init(reg, true)
    {
      assert AlreadyLoaded(reg, files[i]);
    }
    InitLoopUnchanged(step, reg, files);
  }

  lemma CStrEqual(a: seq<byte>, b: seq<byte>)
    requires a == b
    ensures EqualIgnoringCase(CStr(a), CStr(b))
  {
  }
}
