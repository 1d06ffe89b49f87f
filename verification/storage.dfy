/**
 Backing storage: a file is the sequence of its bytes, and a stream read is
 `fseek(stream, pos, SEEK_SET)` followed by `fread(dest, 1, size, stream)`.
 */
module Storage {
  import opened Bytes
  import opened CStrings

  /**
   What `fread` delivers after seeking to `pos`: up to `size` bytes, fewer at
   the end of the file, none when the position lies beyond it.
   */
  function FileRead(file: seq<byte>, pos: nat, size: nat): (r: seq<byte>)
    ensures |r| <= size
    ensures pos + size <= |file| ==> |r| == size
    ensures pos >= |file| ==> r == []
    ensures pos < |file| ==> |r| == Min(size, |file| - pos)
    ensures forall k | 0 <= k < |r| :: pos + k < |file| && r[k] == file[pos + k]
  {
    if pos >= |file| then []
    else if pos + size <= |file| then file[pos..pos + size]
    else file[pos..]
  }

  /** Two consecutive reads deliver what one read of the combined size does. */
  lemma FileReadSplit(file: seq<byte>, pos: nat, a: nat, b: nat)
    ensures FileRead(file, pos, a) + FileRead(file, pos + a, b) == FileRead(file, pos, a + b)
  {
    var x, y, z := FileRead(file, pos, a), FileRead(file, pos + a, b), FileRead(file, pos, a + b);
    if pos + a < |file| {
      assert |x| == a;
      assert forall k | 0 <= k < |z| :: z[k] == (x + y)[k];
    }
  }

  /** The offset of a field in a file: C adds two `unsigned` values, which wraps at 2^32. */
  function AddU32(a: uint32, b: uint32): (r: uint32)
    ensures r == a + b || r == a + b - TWO32
    ensures a + b < TWO32 <==> r == a + b
  {
    (a + b) % TWO32
  }
}
