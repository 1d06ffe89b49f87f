/**
 The C string operations the archive code relies on, over byte sequences:
 NUL-terminated buffers, `strncpy`, `toupper`/`tolower` in the "C" locale,
 `strcasecmp`, `strrchr` and the lump-name padding repair `TestPadding`.
 */
module CStrings {
  import opened Bytes

  const NUL: byte := 0
  const DOT: byte := 0x2E        // '.'
  const SLASH: byte := 0x2F      // '/'
  const BACKSLASH: byte := 0x5C  // '\\'

  /** Index of the first NUL byte of `s`, or |s| when it has none. */
  function NulIndex(s: seq<byte>): (r: nat)
    ensures r <= |s|
    ensures r < |s| ==> s[r] == NUL
    ensures forall k | 0 <= k < r :: s[k] != NUL
  {
    if |s| == 0 || s[0] == NUL then 0 else 1 + NulIndex(s[1..])
  }

  /** The first-NUL index is the one position that the three facts above describe. */
  lemma NulIndexIs(s: seq<byte>, m: nat)
    requires m <= |s|
    requires m < |s| ==> s[m] == NUL
    requires forall k | 0 <= k < m :: s[k] != NUL
    ensures NulIndex(s) == m
  {
  }

  predicate NulFree(s: seq<byte>)
  {
    forall k | 0 <= k < |s| :: s[k] != NUL
  }

  /** The C string held in a buffer: the bytes before its first NUL. */
  function CStr(s: seq<byte>): (r: seq<byte>)
    ensures NulFree(r)
    ensures |r| <= |s|
  {
    s[..NulIndex(s)]
  }

  lemma CStrOfNulFree(s: seq<byte>)
    requires NulFree(s)
    ensures CStr(s) == s
  {
    NulIndexIs(s, |s|);
  }

  function Min(a: int, b: int): int
  {
    if a <= b then a else b
  }

  /**
   `strncpy(dst, src, n)` into an n-byte buffer: the C string of `src`, cut at
   n bytes and padded with NULs up to n.
   */
  function Strncpy(src: seq<byte>, n: nat): (r: seq<byte>)
    ensures |r| == n
  {
    var len := NulIndex(src);
    seq(n, k requires 0 <= k < n => if k < len then src[k] else NUL)
  }

  /** What `strncpy` leaves in the buffer, read back as a C string. */
  lemma StrncpyCStr(src: seq<byte>, n: nat)
    ensures CStr(Strncpy(src, n)) == CStr(src)[..Min(n, NulIndex(src))]
  {
    NulIndexIs(Strncpy(src, n), Min(n, NulIndex(src)));
  }

  //----------------------------------------------------------------------
  // Case folding in the "C" locale: only ASCII letters change.
  //----------------------------------------------------------------------

  function Upper(b: byte): byte
  {
    if 0x61 <= b <= 0x7A then b - 0x20 else b
  }

  function Lower(b: byte): byte
  {
    if 0x41 <= b <= 0x5A then b + 0x20 else b
  }

  predicate IsLowerLetter(b: byte)
  {
    0x61 <= b <= 0x7A
  }

  predicate IsUpperLetter(b: byte)
  {
    0x41 <= b <= 0x5A
  }

  /** `strcasecmp(a, b) == 0` (also `stricmp`) on two C strings. */
  predicate EqualIgnoringCase(a: seq<byte>, b: seq<byte>)
  {
    |a| == |b| && forall k | 0 <= k < |a| :: Lower(a[k]) == Lower(b[k])
  }

  /**
   `strupr` over a whole buffer: the same string ignoring case, with no
   lower-case letter left and every byte that is not one kept as it was.
   */
  function UpperAll(s: seq<byte>): (r: seq<byte>)
    ensures |r| == |s|
    ensures forall k | 0 <= k < |s| :: r[k] == Upper(s[k])
    ensures EqualIgnoringCase(r, s)
    ensures forall k | 0 <= k < |r| :: !IsLowerLetter(r[k])
    ensures forall k | 0 <= k < |s| && !IsLowerLetter(s[k]) :: r[k] == s[k]
  {
    seq(|s|, k requires 0 <= k < |s| => Upper(s[k]))
  }

  /**
   `std::transform(..., ::tolower)` over a whole string: the same string
   ignoring case, with no upper-case letter left and every byte that is not
   one kept as it was.
   */
  function LowerAll(s: seq<byte>): (r: seq<byte>)
    ensures |r| == |s|
    ensures forall k | 0 <= k < |s| :: r[k] == Lower(s[k])
    ensures EqualIgnoringCase(r, s)
    ensures forall k | 0 <= k < |r| :: !IsUpperLetter(r[k])
    ensures forall k | 0 <= k < |s| && !IsUpperLetter(s[k]) :: r[k] == s[k]
  {
    seq(|s|, k requires 0 <= k < |s| => Lower(s[k]))
  }

  /**
   The three facts about `UpperAll` pin it down: any string equal to `s`
   ignoring case, free of lower-case letters, is `UpperAll(s)`.
   */
  lemma UpperAllUnique(s: seq<byte>, r: seq<byte>)
    requires EqualIgnoringCase(r, s)
    requires forall k | 0 <= k < |r| :: !IsLowerLetter(r[k])
    ensures r == UpperAll(s)
  {
  }

  /** Case folding of either kind keeps a C string's terminator where it was. */
  lemma CaseFoldKeepsNul(s: seq<byte>)
    ensures NulFree(s) ==> NulFree(UpperAll(s)) && NulFree(LowerAll(s))
    ensures NulIndex(UpperAll(s)) == NulIndex(s)
  {
    NulIndexIs(UpperAll(s), NulIndex(s));
  }

  /** The last four bytes of `s`, compared with `strcasecmp` (`&fname[len - 4]`). */
  predicate EndsWithIgnoringCase(s: seq<byte>, suffix: seq<byte>)
  {
    |s| >= |suffix| && EqualIgnoringCase(s[|s| - |suffix|..], suffix)
  }

  /** `std::string::find(t) != npos`. */
  predicate Contains(s: seq<byte>, t: seq<byte>)
  {
    exists i | 0 <= i <= |s| - |t| :: OccursAt(s, t, i)
  }

  predicate OccursAt(s: seq<byte>, t: seq<byte>, i: nat)
  {
    i + |t| <= |s| && s[i..i + |t|] == t
  }

  //----------------------------------------------------------------------
  // strrchr and file-name extensions
  //----------------------------------------------------------------------

  /** `strrchr(s, c)`: the position of the last `c`, if any. */
  function LastIndexOf(s: seq<byte>, c: byte): (r: Option<nat>)
    ensures r.None? ==> forall k | 0 <= k < |s| :: s[k] != c
    ensures r.Some? ==> r.value < |s| && s[r.value] == c
    ensures r.Some? ==> forall k | r.value < k < |s| :: s[k] != c
  {
    if |s| == 0 then None
    else if s[|s| - 1] == c then Some(|s| - 1)
    else LastIndexOf(s[..|s| - 1], c)
  }

  /** `strrchr(s, '.') + 1` when there is a dot: the text after the last dot. */
  function Extension(s: seq<byte>): (r: Option<seq<byte>>)
    ensures r.Some? ==> DOT !in r.value
    ensures r.Some? ==> |r.value| < |s| && s[|s| - |r.value| - 1] == DOT
    ensures r.Some? ==> r.value == s[|s| - |r.value|..]
    ensures r.None? <==> DOT !in s
  {
    match LastIndexOf(s, DOT)
    case None => None
    case Some(i) => Some(s[i + 1..])
  }

  /** The extension after the last dot equals `ext`, ignoring case. */
  predicate HasExtension(s: seq<byte>, ext: seq<byte>)
  {
    Extension(s).Some? && EqualIgnoringCase(Extension(s).value, ext)
  }

  //----------------------------------------------------------------------
  // TestPadding: lump names must be NUL-padded
  //----------------------------------------------------------------------

  /** The name with every byte after its first NUL cleared. */
  function ZeroAfterNul(name: seq<byte>): (r: seq<byte>)
    ensures |r| == |name|
  {
    seq(|name|, k requires 0 <= k < |name| => if k <= NulIndex(name) then name[k] else NUL)
  }

  /** Some byte after the first NUL is not zero. */
  predicate HasGarbageAfterNul(name: seq<byte>)
  {
    exists k | NulIndex(name) < k < |name| :: name[k] != NUL
  }

  /**
   `TestPadding(name, len)`: clears every byte after the first NUL of the
   buffer and reports whether any of them was non-zero.
   */
  method TestPadding(name: seq<byte>) returns (fixed: seq<byte>, warn: bool)
    ensures |fixed| == |name|
    ensures forall k | NulIndex(name) < k < |name| :: fixed[k] == NUL
    ensures forall k | 0 <= k <= NulIndex(name) && k < |name| :: fixed[k] == name[k]
    ensures warn <==> HasGarbageAfterNul(name)
    ensures fixed == ZeroAfterNul(name)
  {
    fixed := name;
    warn := false;
    var j := 0;
    while j < |fixed|
      invariant j <= NulIndex(name)
      invariant fixed == name && !warn
    {
      if fixed[j] == NUL {
        j := j + 1;
        while j < |fixed|
          invariant NulIndex(name) < j <= |name| == |fixed|
          invariant forall k | 0 <= k <= NulIndex(name) :: fixed[k] == name[k]
          invariant forall k | NulIndex(name) < k < j :: fixed[k] == NUL
          invariant forall k | j <= k < |name| :: fixed[k] == name[k]
          invariant warn <==> exists k | NulIndex(name) < k < j :: name[k] != NUL
        {
          if fixed[j] != NUL {
            fixed := fixed[j := NUL];
            warn := true;
          }
          j := j + 1;
        }
        break;
      }
      j := j + 1;
    }
  }

  /** A name with no NUL at all (an 8-character WAD name) is kept whole. */
  lemma ZeroAfterNulOfNulFree(name: seq<byte>)
    requires NulFree(name)
    ensures ZeroAfterNul(name) == name
    ensures !HasGarbageAfterNul(name)
  {
    NulIndexIs(name, |name|);
  }

  /** Repairing twice: the second pass finds nothing to repair and changes nothing. */
  lemma ZeroAfterNulIdempotent(name: seq<byte>)
    ensures NulIndex(ZeroAfterNul(name)) == NulIndex(name)
    ensures ZeroAfterNul(ZeroAfterNul(name)) == ZeroAfterNul(name)
    ensures !HasGarbageAfterNul(ZeroAfterNul(name))
  {
    NulIndexIs(ZeroAfterNul(name), NulIndex(name));
  }

  /** `strncpy` of a repaired name into a buffer of the same width copies it unchanged. */
  lemma StrncpyOfRepaired(name: seq<byte>)
    ensures Strncpy(ZeroAfterNul(name), |name|) == ZeroAfterNul(name)
  {
    ZeroAfterNulIdempotent(name);
  }
}
