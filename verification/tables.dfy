/**
 Fixed-width record tables: every directory format here (WAD, WAD2/WAD3,
 PACK) stores its directory as `n` records of one width laid end to end.
 */
module Tables {
  import opened Bytes

  /** What opening a directory out of backing storage can come to. */
  datatype Opened<T> =
    | Opened(dir: T)
    | Rejected
      /** The source reads past the end of its buffer or file here: its result is undefined. */
    | Undefined

  /** `dec` accepts every record of `width` bytes. */
  ghost predicate DecodesWidth<T>(dec: seq<byte> --> T, width: nat)
  {
    forall s: seq<byte> | |s| == width :: dec.requires(s)
  }

  /**
   The bytes taken by `n` records of `width` bytes, counted record by
   record; `SpanIsProduct` shows it is `n * width`. The proofs below count
   this way so that they never reason about a product of two unknowns.
   */
  function Span(n: nat, width: nat): nat
  {
    if n == 0 then 0 else Span(n - 1, width) + width
  }

  lemma {:induction false} SpanIsProduct(n: nat, width: nat)
    ensures Span(n, width) == n * width
  {
    if n > 0 {
      SpanIsProduct(n - 1, width);
      MulSucc(n - 1, width);
    }
  }

  lemma MulSucc(a: nat, b: nat)
    ensures (a + 1) * b == a * b + b
  {
  }

  /** Record `i` of `n` ends within the table. */
  lemma {:induction false} SpanBound(i: nat, n: nat, width: nat)
    requires i < n
    ensures Span(i, width) + width <= Span(n, width)
    decreases n
  {
    if i + 1 < n {
      SpanBound(i, n - 1, width);
    }
  }

  /** The `n` records of `width` bytes starting at `off`, each decoded by `dec`. */
  function Records<T>(data: seq<byte>, off: nat, n: nat, width: nat, dec: seq<byte> --> T): (r: seq<T>)
    requires DecodesWidth(dec, width)
    requires off + Span(n, width) <= |data|
    ensures |r| == n
    decreases n
  {
    if n == 0 then []
    else [dec(data[off..off + width])] + Records(data, off + width, n - 1, width, dec)
  }

  /** The directory read as a table: `n` records of `width` bytes at `off`. */
  function DecodeTable<T>(data: seq<byte>, off: nat, n: nat, width: nat, dec: seq<byte> --> T): (r: seq<T>)
    requires DecodesWidth(dec, width)
    requires off + n * width <= |data|
    ensures |r| == n
  {
    SpanIsProduct(n, width);
    Records(data, off, n, width, dec)
  }

  /** Entry `i` of the records is the `i`-th record of the storage. */
  lemma {:induction false} RecordsAt<T>(data: seq<byte>, off: nat, n: nat, width: nat, dec: seq<byte> --> T, i: nat)
    requires DecodesWidth(dec, width)
    requires off + Span(n, width) <= |data|
    requires i < n
    ensures off + Span(i, width) + width <= |data|
    ensures Records(data, off, n, width, dec)[i] == dec(data[off + Span(i, width)..off + Span(i, width) + width])
    decreases i
  {
    SpanBound(i, n, width);
    if i > 0 {
      var rest := Records(data, off + width, n - 1, width, dec);
      assert Records(data, off, n, width, dec) == [dec(data[off..off + width])] + rest;
      assert Span(i, width) == width + Span(i - 1, width);
      RecordsAt(data, off + width, n - 1, width, dec, i - 1);
    }
  }

  /** Entry `i` of a decoded table is record `i` of the storage. */
  lemma DecodeTableAt<T>(data: seq<byte>, off: nat, n: nat, width: nat, dec: seq<byte> --> T, i: nat)
    requires DecodesWidth(dec, width)
    requires off + n * width <= |data|
    requires i < n
    ensures off + i * width + width <= |data|
    ensures DecodeTable(data, off, n, width, dec)[i] == dec(data[off + i * width..off + i * width + width])
  {
    SpanIsProduct(n, width);
    SpanIsProduct(i, width);
    RecordsAt(data, off, n, width, dec, i);
  }

  /** A value stored in a fixed `width`-byte field: cut to the width, NUL-padded up to it. */
  function Field(s: seq<byte>, width: nat): (r: seq<byte>)
    ensures |r| == width
    ensures |s| == width ==> r == s
  {
    seq(width, k requires 0 <= k < width => if k < |s| then s[k] else 0)
  }

  /** The records written end to end. */
  function EncodeTable<T>(items: seq<T>, enc: T -> seq<byte>): seq<byte>
  {
    if |items| == 0 then [] else enc(items[0]) + EncodeTable(items[1..], enc)
  }

  /** Writing fixed-width records and reading them back gives the same table. */
  lemma DecodeEncodeTable<T>(items: seq<T>, enc: T -> seq<byte>, dec: seq<byte> --> T,
                             width: nat, pre: seq<byte>, post: seq<byte>)
    requires DecodesWidth(dec, width)
    requires forall i | 0 <= i < |items| :: |enc(items[i])| == width
    requires forall i | 0 <= i < |items| :: dec(enc(items[i])) == items[i]
    ensures |EncodeTable(items, enc)| == |items| * width
    ensures |pre| + |items| * width <= |pre + EncodeTable(items, enc) + post|
    ensures DecodeTable(pre + EncodeTable(items, enc) + post, |pre|, |items|, width, dec) == items
  {
    RecordsOfEncoded(items, enc, dec, width, pre, post);
    SpanIsProduct(|items|, width);
  }

  /** The same, counted record by record. */
  lemma {:induction false} RecordsOfEncoded<T>(items: seq<T>, enc: T -> seq<byte>, dec: seq<byte> --> T,
                                               width: nat, pre: seq<byte>, post: seq<byte>)
    requires DecodesWidth(dec, width)
    requires forall i | 0 <= i < |items| :: |enc(items[i])| == width
    requires forall i | 0 <= i < |items| :: dec(enc(items[i])) == items[i]
    ensures |EncodeTable(items, enc)| == Span(|items|, width)
    ensures |pre| + Span(|items|, width) <= |pre + EncodeTable(items, enc) + post|
    ensures Records(pre + EncodeTable(items, enc) + post, |pre|, |items|, width, dec) == items
    decreases |items|
  {
    EncodeTableLength(items, enc, width);
    if |items| > 0 {
      var head := enc(items[0]);
      var rest := items[1..];
      var tail := EncodeTable(rest, enc);
      EncodedTail(items, enc, dec, width);
      RecordsOfEncoded(rest, enc, dec, width, pre + head, post);
      var data := pre + EncodeTable(items, enc) + post;
      assert data == (pre + head) + tail + post && data[|pre|..|pre| + width] == head by {
        assert EncodeTable(items, enc) == head + tail;
      }
      assert Records(data, |pre|, |items|, width, dec) == [items[0]] + rest;
      assert items == [items[0]] + rest;
    }
  }

  /** The records after the first keep the round-trip requirements. */
  lemma EncodedTail<T>(items: seq<T>, enc: T -> seq<byte>, dec: seq<byte> --> T, width: nat)
    requires |items| > 0
    requires DecodesWidth(dec, width)
    requires forall i | 0 <= i < |items| :: |enc(items[i])| == width
    requires forall i | 0 <= i < |items| :: dec(enc(items[i])) == items[i]
    ensures forall i | 0 <= i < |items| - 1 :: |enc(items[1..][i])| == width && dec(enc(items[1..][i])) == items[1..][i]
  {
    forall i | 0 <= i < |items| - 1 ensures |enc(items[1..][i])| == width && dec(enc(items[1..][i])) == items[1..][i] {
      assert items[1..][i] == items[i + 1];
    }
  }

  /** Records of one width written end to end take that width each. */
  lemma {:induction false} EncodeTableLength<T>(items: seq<T>, enc: T -> seq<byte>, width: nat)
    requires forall i | 0 <= i < |items| :: |enc(items[i])| == width
    ensures |EncodeTable(items, enc)| == Span(|items|, width)
    decreases |items|
  {
    if |items| > 0 {
      assert forall i | 0 <= i < |items[1..]| :: items[1..][i] == items[i + 1];
      EncodeTableLength(items[1..], enc, width);
    }
  }
}
