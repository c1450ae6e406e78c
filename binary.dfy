/** The binary-file sniffer (`is_likely_binary`). */
module Binary {
  import opened Chars

  type byte = b: int | 0 <= b < 256

  /** How many bytes of the file are looked at. */
  const ChunkSize: nat := 1024

  /** `bytes(range(32, 127)) + b'\n\r\t\f\b'` */
  predicate IsTextByte(b: byte)
  {
    (32 <= b < 127) || b == 10 || b == 13 || b == 9 || b == 12 || b == 8
  }

  /** Number of bytes of `s` outside the text set. */
  function NonTextCount(s: seq<byte>): (n: nat)
    ensures n <= |s|
  {
    if s == [] then 0 else (if IsTextByte(s[0]) then 0 else 1) + NonTextCount(s[1..])
  }

  /** `f.read(1024)` on the file's bytes. */
  function Chunk(data: seq<byte>): (c: seq<byte>)
    ensures |c| <= ChunkSize
  {
    if |data| <= ChunkSize then data else data[..ChunkSize]
  }

  /** `is_likely_binary` on the outcome of reading the file (`None`: the
      read raised). The ratio test `nontext / len > 0.3` is written
      `10 * nontext > 3 * len`. */
  predicate IsLikelyBinary(file: Option<seq<byte>>)
  {
    match file
    case None => false
    case Some(data) =>
      var chunk := Chunk(data);
      if chunk == [] then false
      else if 0 in chunk then true
      else 10 * NonTextCount(chunk) > 3 * |chunk|
  }

  /** The verdict on a file that cannot be read, or that is empty, is
      "text". */
  lemma UnreadableOrEmptyIsText(file: Option<seq<byte>>)
    requires file.None? || file == Some([])
    ensures !IsLikelyBinary(file)
  {
  }

  /** A NUL byte among the first 1024 bytes makes the file binary. */
  lemma NulMeansBinary(data: seq<byte>, i: nat)
    requires i < |data| && i < ChunkSize && data[i] == 0
    ensures IsLikelyBinary(Some(data))
  {
    assert Chunk(data)[i] == 0;
  }

  /** Without a NUL byte the verdict is exactly the ratio test, which the
      integer comparison states without rounding. */
  lemma RatioTest(data: seq<byte>)
    requires data != [] && 0 !in Chunk(data)
    ensures var c := Chunk(data);
            IsLikelyBinary(Some(data)) <==>
            (NonTextCount(c) as real) / (|c| as real) > 0.3
  {
    var c := Chunk(data);
    var n, len := NonTextCount(c) as real, |c| as real;
    assert IsLikelyBinary(Some(data)) <==> 10.0 * n > 3.0 * len;
    DivAbove(n, len, 0.3);
  }

  /** For a positive divisor, the quotient exceeds `t` exactly when the
      dividend exceeds `t` times the divisor. */
  lemma DivAbove(n: real, len: real, t: real)
    requires len > 0.0
    ensures n / len > t <==> n > t * len
  {
    var q := n / len;
    assert q * len == n;
    if q > t {
      MulPositive(q - t, len);
    } else {
      MulNonNegative(t - q, len);
    }
  }

  lemma MulPositive(a: real, b: real)
    requires a > 0.0 && b > 0.0
    ensures a * b > 0.0
  {
  }

  lemma MulNonNegative(a: real, b: real)
    requires a >= 0.0 && b > 0.0
    ensures a * b >= 0.0
  {
  }

  /** Only the first 1024 bytes matter: whatever follows them leaves the
      verdict unchanged. */
  lemma OnlyChunkMatters(data: seq<byte>, rest: seq<byte>)
    requires |data| >= ChunkSize
    ensures IsLikelyBinary(Some(data + rest)) == IsLikelyBinary(Some(data))
  {
    assert (data + rest)[..ChunkSize] == data[..ChunkSize];
    assert Chunk(data + rest) == Chunk(data);
  }

  /** Text made only of text bytes is never taken for binary. */
  lemma AllTextIsText(data: seq<byte>)
    requires forall k :: 0 <= k < |data| ==> IsTextByte(data[k])
    ensures !IsLikelyBinary(Some(data))
  {
    var c := Chunk(data);
    assert forall k :: 0 <= k < |c| ==> c[k] == data[k];
    AllTextCount(c);
  }

  lemma {:induction false} AllTextCount(s: seq<byte>)
    requires forall k :: 0 <= k < |s| ==> IsTextByte(s[k])
    ensures NonTextCount(s) == 0
  {
    if s != [] {
      assert forall k :: 0 <= k < |s| - 1 ==> s[1..][k] == s[k + 1];
      AllTextCount(s[1..]);
    }
  }
}
