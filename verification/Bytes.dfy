/** Little-endian words as the on-disk records store them. */
module Bytes {
  type byte = x: nat | x < 0x100
  type u32 = x: nat | x < 0x1_0000_0000
  type u64 = x: nat | x < 0x1_0000_0000_0000_0000

  /** One more than the largest value that `k` bytes hold. */
  function Limit(k: nat): (n: nat)
    ensures n > 0
  {
    if k == 0 then 1 else 0x100 * Limit(k - 1)
  }

  lemma WordLimits()
    ensures Limit(4) == 0x1_0000_0000
    ensures Limit(8) == 0x1_0000_0000_0000_0000
  {
    assert Limit(2) == 0x1_0000;
    assert Limit(6) == 0x1_0000_0000_0000;
  }

  /** The low `k` bytes of `n`, least significant first. */
  function ToLE(n: nat, k: nat): (bs: seq<byte>)
    ensures |bs| == k
    decreases k
  {
    if k == 0 then [] else [n % 0x100] + ToLE(n / 0x100, k - 1)
  }

  function FromLE(bs: seq<byte>): nat {
    if bs == [] then 0 else bs[0] + 0x100 * FromLE(bs[1..])
  }

  lemma {:induction false} FromLEBound(bs: seq<byte>)
    ensures FromLE(bs) < Limit(|bs|)
  {
    if bs != [] { FromLEBound(bs[1..]); }
  }

  lemma {:induction false} DecodeEncoded(n: nat, k: nat)
    requires n < Limit(k)
    ensures FromLE(ToLE(n, k)) == n
  {
    if k > 0 {
      DecodeEncoded(n / 0x100, k - 1);
      assert ToLE(n, k)[1..] == ToLE(n / 0x100, k - 1);
    }
  }

  lemma {:induction false} EncodeDecoded(bs: seq<byte>)
    ensures ToLE(FromLE(bs), |bs|) == bs
  {
    if bs != [] {
      EncodeDecoded(bs[1..]);
      LowByte(bs[0], FromLE(bs[1..]));
      assert bs == [bs[0]] + bs[1..];
    }
  }

  lemma LowByte(low: byte, high: nat)
    ensures (low + 0x100 * high) % 0x100 == low && (low + 0x100 * high) / 0x100 == high
  {
  }

  function ToU32(bs: seq<byte>): u32
    requires |bs| == 4
  {
    FromLEBound(bs);
    WordLimits();
    FromLE(bs)
  }

  function ToU64(bs: seq<byte>): u64
    requires |bs| == 8
  {
    FromLEBound(bs);
    WordLimits();
    FromLE(bs)
  }

  lemma U32RoundTrip(n: u32)
    ensures ToU32(ToLE(n, 4)) == n
  {
    WordLimits();
    DecodeEncoded(n, 4);
  }

  lemma U64RoundTrip(n: u64)
    ensures ToU64(ToLE(n, 8)) == n
  {
    WordLimits();
    DecodeEncoded(n, 8);
  }

  /** Consecutive 64-bit words. */
  function EncodeWords(ws: seq<u64>): (bs: seq<byte>)
    ensures |bs| == 8 * |ws|
  {
    if ws == [] then [] else ToLE(ws[0], 8) + EncodeWords(ws[1..])
  }

  function DecodeWords(bs: seq<byte>): (ws: seq<u64>)
    requires |bs| % 8 == 0
    ensures |ws| == |bs| / 8
  {
    if bs == [] then [] else [ToU64(bs[..8])] + DecodeWords(bs[8..])
  }

  lemma {:induction false} WordsRoundTrip(ws: seq<u64>)
    ensures DecodeWords(EncodeWords(ws)) == ws
  {
    if ws != [] {
      U64RoundTrip(ws[0]);
      WordsRoundTrip(ws[1..]);
      var bs := EncodeWords(ws);
      assert bs[..8] == ToLE(ws[0], 8) && bs[8..] == EncodeWords(ws[1..]);
    }
  }

  lemma {:induction false} WordsCanonical(bs: seq<byte>)
    requires |bs| % 8 == 0
    ensures EncodeWords(DecodeWords(bs)) == bs
  {
    if bs != [] {
      WordsCanonical(bs[8..]);
      EncodeDecoded(bs[..8]);
      assert DecodeWords(bs)[1..] == DecodeWords(bs[8..]);
      assert bs == bs[..8] + bs[8..];
    }
  }
}
