/** Octets, byte sums, little-endian integers and hex text: the value-level
    vocabulary shared by the frame codec, the payload decoders and the
    command builders. */
module Bytes {

  /** One octet on the serial link. */
  type byte = b: int | 0 <= b < 256

  /** The firmware's single-precision float, kept as its 4 little-endian bytes;
      the IEEE 754 number the bytes denote is not interpreted. */
  type Float32 = s: seq<byte> | |s| == 4 witness [0, 0, 0, 0]

  /** The firmware's double-precision float, kept as its 8 little-endian bytes. */
  type Float64 = s: seq<byte> | |s| == 8 witness [0, 0, 0, 0, 0, 0, 0, 0]

  datatype Option<+T> = None | Some(value: T)

  /** Sum of all bytes, as the running `sum += byte` loops accumulate it. */
  function Sum(s: seq<byte>): (r: nat)
    ensures r <= 255 * |s|
  {
    if s == [] then 0 else Sum(s[..|s| - 1]) + s[|s| - 1]
  }

  lemma {:induction false} SumAppend(a: seq<byte>, b: seq<byte>)
    ensures Sum(a + b) == Sum(a) + Sum(b)
  {
    if b == [] {
      assert a + b == a;
    } else {
      assert (a + b)[..|a + b| - 1] == a + b[..|b| - 1];
      SumAppend(a, b[..|b| - 1]);
    }
  }

  /** Replacing one byte changes the sum by exactly the difference. */
  lemma {:induction false} SumUpdate(s: seq<byte>, i: nat, v: byte)
    requires i < |s|
    ensures Sum(s[i := v]) == Sum(s) - s[i] + v
  {
    var t := s[i := v];
    if i == |s| - 1 {
      assert t[..|t| - 1] == s[..|s| - 1];
    } else {
      assert t[..|t| - 1] == s[..|s| - 1][i := v];
      SumUpdate(s[..|s| - 1], i, v);
    }
  }

  /** Concatenation of received chunks, in order. */
  function Concat(chunks: seq<seq<byte>>): (r: seq<byte>)
    ensures chunks == [] ==> r == []
  {
    if chunks == [] then [] else chunks[0] + Concat(chunks[1..])
  }

  lemma {:induction false} ConcatSplit(chunks: seq<seq<byte>>, j: nat)
    requires j <= |chunks|
    ensures Concat(chunks) == Concat(chunks[..j]) + Concat(chunks[j..])
  {
    if j > 0 {
      assert chunks[..j][1..] == chunks[1..][..j - 1];
      assert chunks[j..] == chunks[1..][j - 1..];
      ConcatSplit(chunks[1..], j - 1);
    }
  }

  /** A concatenation of non-empty chunks is at least as long as the chunk count. */
  lemma {:induction false} ConcatLength(chunks: seq<seq<byte>>)
    requires forall k :: 0 <= k < |chunks| ==> chunks[k] != []
    ensures |Concat(chunks)| >= |chunks|
  {
    if chunks != [] {
      ConcatLength(chunks[1..]);
    }
  }

  // The three slice lemmas below are proof steps about sequences; they model
  // nothing in the program.

  /** A slice is determined by its bytes. */
  lemma SliceByIndex(s: seq<byte>, offset: nat, t: seq<byte>)
    requires offset + |t| <= |s|
    requires forall k :: 0 <= k < |t| ==> s[offset + k] == t[k]
    ensures s[offset..offset + |t|] == t
  {
    var slice := s[offset..offset + |t|];
    assert forall k :: 0 <= k < |t| ==> slice[k] == t[k];
  }

  /** Two successive subarray(start) calls are one. */
  lemma SliceSlice(s: seq<byte>, k: nat, i: nat, j: nat)
    requires i <= j && k + j <= |s|
    ensures s[k..][i..j] == s[k + i..k + j]
  {
  }

  lemma DropDrop(s: seq<byte>, i: nat, j: nat)
    requires i + j <= |s|
    ensures s[i..][j..] == s[i + j..]
  {
  }

  // ---- little-endian unsigned integers (readUInt32LE) ----

  function Pow256(k: nat): (r: nat)
    ensures r >= 1
  {
    if k == 0 then 1 else 256 * Pow256(k - 1)
  }

  /** The unsigned integer whose little-endian image is `bs`. */
  function FromLE(bs: seq<byte>): (r: nat)
    ensures r < Pow256(|bs|)
  {
    if bs == [] then 0 else bs[0] + 256 * FromLE(bs[1..])
  }

  /** The `k`-byte little-endian image of `n`. */
  function ToLE(n: nat, k: nat): (bs: seq<byte>)
    ensures |bs| == k
  {
    if k == 0 then [] else [n % 256] + ToLE(n / 256, k - 1)
  }

  lemma {:induction false} FromToLE(n: nat, k: nat)
    requires n < Pow256(k)
    ensures FromLE(ToLE(n, k)) == n
  {
    if k > 0 {
      assert n / 256 < Pow256(k - 1);
      FromToLE(n / 256, k - 1);
      assert ToLE(n, k)[1..] == ToLE(n / 256, k - 1);
    }
  }

  lemma {:induction false} ToFromLE(bs: seq<byte>)
    ensures ToLE(FromLE(bs), |bs|) == bs
  {
    if bs != [] {
      ToFromLE(bs[1..]);
      var n := FromLE(bs);
      assert n % 256 == bs[0] && n / 256 == FromLE(bs[1..]);
    }
  }

  const U32_LIMIT: nat := 0x1_0000_0000

  /** readUInt32LE(offset). */
  function U32At(data: seq<byte>, offset: nat): (r: nat)
    requires offset + 4 <= |data|
    ensures r < U32_LIMIT
  {
    assert Pow256(4) == U32_LIMIT;
    FromLE(data[offset..offset + 4])
  }

  /** The 4-byte little-endian image of a u32 (the device-side writer). */
  function U32Bytes(n: nat): (bs: seq<byte>)
    requires n < U32_LIMIT
    ensures |bs| == 4
  {
    ToLE(n, 4)
  }

  lemma U32RoundTrip(n: nat)
    requires n < U32_LIMIT
    ensures U32At(U32Bytes(n), 0) == n
  {
    assert Pow256(4) == U32_LIMIT;
    assert U32Bytes(n)[0..4] == U32Bytes(n);
    FromToLE(n, 4);
  }

  lemma U32Image(data: seq<byte>, offset: nat)
    requires offset + 4 <= |data|
    ensures U32Bytes(U32At(data, offset)) == data[offset..offset + 4]
  {
    ToFromLE(data[offset..offset + 4]);
  }

  // ---- Buffer.toString("hex") ----

  function HexDigit(n: int): (c: char)
    requires 0 <= n < 16
  {
    if n < 10 then '0' + (n as char) else 'a' + ((n - 10) as char)
  }

  function HexValue(c: char): Option<int>
  {
    if '0' <= c <= '9' then Some(c as int - '0' as int)
    else if 'a' <= c <= 'f' then Some(c as int - 'a' as int + 10)
    else None
  }

  /** Lower-case hex text, two digits per byte, as Node's `toString("hex")`. */
  function Hex(data: seq<byte>): (s: string)
    ensures |s| == 2 * |data|
  {
    if data == [] then "" else [HexDigit(data[0] / 16), HexDigit(data[0] % 16)] + Hex(data[1..])
  }

  /** Reads hex text back into bytes; None on an odd length or a non-digit. */
  function FromHex(s: string): Option<seq<byte>>
    decreases |s|
  {
    if s == [] then Some([])
    else if |s| == 1 then None
    else match (HexValue(s[0]), HexValue(s[1]), FromHex(s[2..]))
      case (Some(hi), Some(lo), Some(rest)) => Some([hi * 16 + lo] + rest)
      case _ => None
  }

  lemma {:induction false} HexRoundTrip(data: seq<byte>)
    ensures FromHex(Hex(data)) == Some(data)
  {
    if data != [] {
      var s := Hex(data);
      assert s[2..] == Hex(data[1..]);
      HexRoundTrip(data[1..]);
      assert HexValue(HexDigit(data[0] / 16)) == Some(data[0] / 16);
      assert HexValue(HexDigit(data[0] % 16)) == Some(data[0] % 16);
      assert [data[0]] + data[1..] == data;
    }
  }
}
