/** Bytes, big-endian packing (Python's `struct.pack(">Q", n)` and
    `struct.unpack(">I", b)`), and ASCII encoding (`str.encode("ascii")`). */
module Bytes {
  import opened Wrappers
  import opened Errors
  import opened Arith

  type byte = x: int | 0 <= x < 256

  const U64Bound: nat := 0x1_0000_0000_0000_0000

  /** Unsigned big-endian value of `bs`. */
  function FromBigEndian(bs: seq<byte>): (r: nat)
    ensures r < Pow(256, |bs|)
  {
    if |bs| == 0 then 0
    else
      var hi := FromBigEndian(bs[..|bs| - 1]);
      assert hi * 256 <= (Pow(256, |bs| - 1) - 1) * 256 by {
        MulMonotone(Pow(256, |bs| - 1) - 1, hi, 256);
      }
      hi * 256 + bs[|bs| - 1]
  }

  /** The `width` low-order bytes of `n`, most significant first. */
  function ToBigEndian(n: nat, width: nat): (r: seq<byte>)
    ensures |r| == width
  {
    if width == 0 then [] else ToBigEndian(n / 256, width - 1) + [n % 256]
  }

  /** Unpacking what was packed gives the number back, when it fits. */
  lemma {:induction false} FromToBigEndian(n: nat, width: nat)
    requires n < Pow(256, width)
    ensures FromBigEndian(ToBigEndian(n, width)) == n
  {
    if width > 0 {
      var bs := ToBigEndian(n, width);
      assert bs[..width - 1] == ToBigEndian(n / 256, width - 1);
      assert n / 256 < Pow(256, width - 1) by {
        DivModUnique(n, 256, n / 256, n % 256);
      }
      FromToBigEndian(n / 256, width - 1);
    }
  }

  /** Packing what was unpacked gives the bytes back. */
  lemma {:induction false} ToFromBigEndian(bs: seq<byte>)
    ensures ToBigEndian(FromBigEndian(bs), |bs|) == bs
  {
    if |bs| > 0 {
      var init := bs[..|bs| - 1];
      var v := FromBigEndian(bs);
      DivModUnique(v, 256, FromBigEndian(init), bs[|bs| - 1]);
      ToFromBigEndian(init);
      assert bs == init + [bs[|bs| - 1]];
    }
  }

  lemma U64BoundIsPow()
    ensures Pow(256, 8) == U64Bound
  {
  }

  /** `struct.pack(">Q", n)`: eight big-endian bytes, or `struct.error` when `n`
      is not an unsigned 64-bit value. */
  function PackU64(n: int): (r: Result<seq<byte>, Error>)
    ensures r.Ok? <==> 0 <= n < U64Bound
    ensures r.Ok? ==> |r.value| == 8 && FromBigEndian(r.value) == n
  {
    if 0 <= n < U64Bound then
      U64BoundIsPow();
      FromToBigEndian(n, 8);
      Ok(ToBigEndian(n, 8))
    else
      Err(StructError(StructRangeMessage))
  }

  predicate IsAscii(s: string) {
    forall i :: 0 <= i < |s| ==> s[i] < 128 as char
  }

  /** `s.encode("ascii")`: the code point of every character, or a
      `UnicodeEncodeError` (a `ValueError`) at the first non-ASCII character. */
  function AsciiEncode(s: string): (r: Result<seq<byte>, Error>)
    ensures r.Ok? <==> IsAscii(s)
    ensures r.Ok? ==> |r.value| == |s|
  {
    if IsAscii(s) then Ok(seq(|s|, i requires 0 <= i < |s| => s[i] as int))
    else Err(ValueError(NotAsciiMessage))
  }

  /** `b.decode("ascii")` for bytes below 128. */
  function AsciiDecode(bs: seq<byte>): (r: string)
    requires forall i :: 0 <= i < |bs| ==> bs[i] < 128
    ensures |r| == |bs|
  {
    seq(|bs|, i requires 0 <= i < |bs| => bs[i] as char)
  }

  /** Encoding is lossless: decoding the encoded bytes gives the text back. */
  lemma AsciiRoundTrip(s: string)
    requires IsAscii(s)
    ensures AsciiEncode(s).Ok?
    ensures forall i :: 0 <= i < |s| ==> AsciiEncode(s).value[i] < 128
    ensures AsciiDecode(AsciiEncode(s).value) == s
  {
    var bs := AsciiEncode(s).value;
    assert forall i :: 0 <= i < |s| ==> bs[i] == s[i] as int;
  }
}
