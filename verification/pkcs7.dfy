/** PKCS#7 padding (section 6.3 of RFC 5652) with the AES block size of 16, as
    PyCryptodome's `Crypto.Util.Padding.pad` and `unpad` (style 'pkcs7') do it. */
module Pkcs7 {
  import opened Wrappers

  /** `AES.block_size`. */
  const BlockSize: nat := 16

  /** The number of padding bytes `pad` appends to `n` bytes. */
  function PadLength(n: nat): (k: nat)
    ensures 1 <= k <= BlockSize
    ensures (n + k) % BlockSize == 0
  {
    BlockSize - n % BlockSize
  }

  /** `pad(data, 16)`: `data` followed by k copies of the byte k. */
  function Pad(data: seq<byte>): (r: seq<byte>)
    ensures |r| % BlockSize == 0 && |data| < |r| <= |data| + BlockSize
    ensures r[..|data|] == data
    ensures forall i :: |data| <= i < |r| ==> r[i] == |r| - |data|
  {
    data + Repeat(PadLength(|data|), PadLength(|data|))
  }

  /** `unpad(data, 16)`; None where PyCryptodome raises `ValueError`: empty
      input, a length that is not a multiple of 16, a last byte k outside
      1..min(16, |data|), or a last k bytes that are not all k. */
  function Unpad(data: seq<byte>): (r: Option<seq<byte>>)
    ensures r.Some? ==> |data| - BlockSize <= |r.value| < |data| && r.value == data[..|r.value|]
    ensures r.Some? ==> forall i :: |r.value| <= i < |data| ==> data[i] == |data| - |r.value|
  {
    if |data| == 0 then None
    else if |data| % BlockSize != 0 then None
    else
      var k := data[|data| - 1] as int;
      if k < 1 || k > BlockSize || k > |data| then None
      else if data[|data| - k..] != Repeat(k, k) then None
      else Some(data[..|data| - k])
  }

  /** Unpadding inverts padding: `unpad(pad(b)) == b`. */
  lemma UnpadPad(data: seq<byte>)
    ensures Unpad(Pad(data)) == Some(data)
  {
    var p := Pad(data);
    var k := PadLength(|data|);
    assert p[|p| - 1] == k;
    assert p[|p| - k..] == Repeat(k, k);
    assert p[..|p| - k] == data;
  }

  /** Unpadding accepts only what padding produces: whatever `unpad` returns
      pads back to its input. With UnpadPad, `unpad` succeeds on `p` exactly
      when `p` is `pad(b)` for some `b`. */
  lemma PadUnpad(data: seq<byte>, b: seq<byte>)
    requires Unpad(data) == Some(b)
    ensures Pad(b) == data
  {
    var n := |data|;
    var k := data[n - 1] as int;
    assert 1 <= k <= BlockSize && k <= n && n % BlockSize == 0;
    assert data[n - k..] == Repeat(k, k);
    assert b == data[..n - k];
    PadLengthOf(n - k, k);
    assert Pad(b) == b + Repeat(k, k);
    assert data == data[..n - k] + data[n - k..];
  }

  /** The padding length is the k that completes the last block. */
  lemma PadLengthOf(m: nat, k: nat)
    requires 1 <= k <= BlockSize && (m + k) % BlockSize == 0
    ensures PadLength(m) == k
  {
  }

  /** The rejections of `unpad`, in terms of the input alone. */
  lemma UnpadRejects(data: seq<byte>)
    ensures Unpad(data).None? <==>
      (|data| == 0 || |data| % BlockSize != 0 || data[|data| - 1] == 0 || data[|data| - 1] > BlockSize
       || exists i :: |data| - data[|data| - 1] <= i < |data| && data[i] != data[|data| - 1])
  {
    if |data| > 0 && |data| % BlockSize == 0 {
      var k := data[|data| - 1] as int;
      if 1 <= k <= BlockSize {
        assert k <= |data|;
        if data[|data| - k..] != Repeat(k, k) {
          var j :| 0 <= j < k && data[|data| - k..][j] != k;
          assert data[|data| - k + j] != data[|data| - 1];
        }
      }
    }
  }

  /** The padded length of n bytes is 16 * (floor(n / 16) + 1). */
  lemma PadLengthFormula(data: seq<byte>)
    ensures |Pad(data)| == BlockSize * (|data| / BlockSize + 1)
  {
  }
}
