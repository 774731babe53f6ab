/**
 * Bytes and 256-bit machine words, and the big-endian conversion between a
 * word and its byte string (the U256 `from_big_endian` / `to_big_endian`
 * pair the memory relies on).
 */
module Words {

  /** An unsigned 8-bit value (`u8`). */
  type Byte = b: nat | b < 256

  /** 256^k, the number of values a string of k bytes can encode. */
  function Pow256(k: nat): (r: nat)
    ensures r >= 1
    ensures k >= 1 ==> r >= 256
  {
    if k == 0 then 1 else 256 * Pow256(k - 1)
  }

  /** Number of bytes in a machine word. */
  const WORD_BYTES: nat := 32

  /** 2^256: every machine word is strictly below it. */
  const WORD_LIMIT: nat := 0x1_0000_0000_0000_0000_0000_0000_0000_0000_0000_0000_0000_0000_0000_0000_0000_0000

  /** An unsigned 256-bit value (`U256`). */
  type Word = w: nat | w < WORD_LIMIT

  lemma {:induction false} Pow256Add(a: nat, b: nat)
    ensures Pow256(a + b) == Pow256(a) * Pow256(b)
  {
    if a > 0 {
      Pow256Add(a - 1, b);
    }
  }

  lemma WordLimitIsPow256()
    ensures Pow256(WORD_BYTES) == WORD_LIMIT
  {
    assert Pow256(4) == 0x1_0000_0000;
    Pow256Add(4, 4);
    Pow256Add(8, 8);
    Pow256Add(16, 16);
  }

  /** The unsigned value of a big-endian byte string. */
  function FromBigEndian(bs: seq<Byte>): nat
  {
    if bs == [] then 0 else FromBigEndian(bs[..|bs| - 1]) * 256 + bs[|bs| - 1]
  }

  /** The `len`-byte big-endian encoding of `n`, keeping the low-order bytes. */
  function ToBigEndian(n: nat, len: nat): (r: seq<Byte>)
    ensures |r| == len
  {
    if len == 0 then [] else ToBigEndian(n / 256, len - 1) + [n % 256]
  }

  /** A byte string of length k encodes a value below 256^k. */
  lemma {:induction false} FromBigEndianBound(bs: seq<Byte>)
    ensures FromBigEndian(bs) < Pow256(|bs|)
  {
    if bs != [] {
      var init := bs[..|bs| - 1];
      FromBigEndianBound(init);
      assert FromBigEndian(init) + 1 <= Pow256(|init|);
      calc {
        FromBigEndian(bs);
      ==
        FromBigEndian(init) * 256 + bs[|bs| - 1];
      <
        FromBigEndian(init) * 256 + 256;
      ==
        (FromBigEndian(init) + 1) * 256;
      <=
        { MulMonotone(FromBigEndian(init) + 1, Pow256(|init|), 256); }
        Pow256(|init|) * 256;
      }
    }
  }

  lemma MulMonotone(a: nat, b: nat, c: nat)
    requires a <= b
    ensures a * c <= b * c
  {
  }

  /** Decoding the encoding of a value that fits gives the value back. */
  lemma {:induction false} FromToBigEndian(n: nat, len: nat)
    requires n < Pow256(len)
    ensures FromBigEndian(ToBigEndian(n, len)) == n
  {
    if len > 0 {
      var enc := ToBigEndian(n, len);
      assert enc[..len - 1] == ToBigEndian(n / 256, len - 1);
      assert n / 256 < Pow256(len - 1);
      FromToBigEndian(n / 256, len - 1);
    }
  }

  /** Encoding the value of a byte string, at its own length, gives the string back. */
  lemma {:induction false} ToFromBigEndian(bs: seq<Byte>)
    ensures ToBigEndian(FromBigEndian(bs), |bs|) == bs
  {
    if bs != [] {
      var init := bs[..|bs| - 1];
      var v := FromBigEndian(bs);
      assert v / 256 == FromBigEndian(init) && v % 256 == bs[|bs| - 1];
      ToFromBigEndian(init);
      assert bs == init + [bs[|bs| - 1]];
    }
  }

  /** The 32-byte encoding of a word decodes back to the word. */
  lemma WordRoundTrip(w: Word)
    ensures FromBigEndian(ToBigEndian(w, WORD_BYTES)) == w
  {
    WordLimitIsPow256();
    FromToBigEndian(w, WORD_BYTES);
  }

  /** 32 bytes always decode to a value that fits in a word. */
  lemma WordFits(bs: seq<Byte>)
    requires |bs| == WORD_BYTES
    ensures FromBigEndian(bs) < WORD_LIMIT
  {
    WordLimitIsPow256();
    FromBigEndianBound(bs);
  }
}
