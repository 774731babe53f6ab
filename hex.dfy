/**
 * The hex decoder `decode` (src/evm/vm.rs, repeated verbatim in
 * decompile.rs): an ASCII string is cut into two-character pairs from the
 * left, each pair is parsed as a base-16 `u8`, and the first pair that does
 * not parse makes the whole result an error.
 *
 * The source iterates `i` over `0..len-1` in steps of 2, so an odd trailing
 * character is dropped rather than rejected, and an empty string underflows
 * `len-1` (a panic), which is why `Decode` requires a non-empty input.
 */
module Hex {
  import opened Words
  import opened Results

  /** `ParseIntError`: with exactly two characters per pair, the only kind that can arise. */
  datatype ParseError = InvalidDigit

  predicate IsAscii(s: string)
  {
    forall i :: 0 <= i < |s| ==> s[i] as int < 128
  }

  /** A base-16 digit, either case. */
  predicate IsHexDigit(c: char)
  {
    ('0' <= c <= '9') || ('a' <= c <= 'f') || ('A' <= c <= 'F')
  }

  function DigitValue(c: char): (v: nat)
    requires IsHexDigit(c)
    ensures v < 16
  {
    if '0' <= c <= '9' then c as int - '0' as int
    else if 'a' <= c <= 'f' then c as int - 'a' as int + 10
    else c as int - 'A' as int + 10
  }

  /**
   * `u8::from_str_radix` on a two-character string with radix 16: two hex
   * digits, or a '+' sign followed by one hex digit (the library accepts an
   * explicit plus sign on unsigned types).
   */
  function ParsePair(hi: char, lo: char): (r: Option<Byte>)
    ensures r.Some? <==> IsHexDigit(lo) && (IsHexDigit(hi) || hi == '+')
  {
    if IsHexDigit(hi) && IsHexDigit(lo) then Some(16 * DigitValue(hi) + DigitValue(lo))
    else if hi == '+' && IsHexDigit(lo) then Some(DigitValue(lo))
    else None
  }

  /** The parse of the k-th character pair of s. */
  function Pair(s: string, k: nat): Option<Byte>
    requires 2 * k + 1 < |s|
  {
    ParsePair(s[2 * k], s[2 * k + 1])
  }

  /** The pairs of s, left to right, collected into a byte string; stops at the first bad pair. */
  function DecodePairs(s: string): Result<seq<Byte>, ParseError>
  {
    if |s| < 2 then Ok([])
    else
      match ParsePair(s[0], s[1])
      case None => Err(InvalidDigit)
      case Some(b) =>
        match DecodePairs(s[2..])
        case Err(e) => Err(e)
        case Ok(rest) => Ok([b] + rest)
  }

  /** DecodePairs succeeds exactly when every pair parses, and then yields one byte per pair. */
  lemma {:induction false} DecodePairsSpec(s: string)
    ensures DecodePairs(s).Ok? <==> forall k :: 0 <= k < |s| / 2 ==> Pair(s, k).Some?
    ensures DecodePairs(s).Ok? ==>
              |DecodePairs(s).value| == |s| / 2 &&
              forall k :: 0 <= k < |s| / 2 ==> DecodePairs(s).value[k] == Pair(s, k).value
    decreases |s|
  {
    if |s| >= 2 {
      var t := s[2..];
      DecodePairsSpec(t);
      assert forall k :: 0 <= k < |t| / 2 ==> Pair(t, k) == Pair(s, k + 1);
      if ParsePair(s[0], s[1]).Some? && DecodePairs(t).Ok? {
        assert forall k :: 0 <= k < |s| / 2 ==> Pair(s, k).Some? by {
          forall k | 0 <= k < |s| / 2 ensures Pair(s, k).Some? {
            if k > 0 {
              assert Pair(t, k - 1) == Pair(s, k);
            }
          }
        }
        forall k | 0 <= k < |s| / 2
          ensures DecodePairs(s).value[k] == Pair(s, k).value
        {
          if k > 0 {
            assert DecodePairs(s).value[k] == DecodePairs(t).value[k - 1];
          }
        }
      } else if ParsePair(s[0], s[1]).Some? {
        var j :| 0 <= j < |t| / 2 && Pair(t, j).None?;
        assert Pair(s, j + 1).None?;
      } else {
        assert Pair(s, 0).None?;
      }
    }
  }

  /** `decode`: requires a non-empty ASCII string (the source panics otherwise). */
  function Decode(s: string): (r: Result<seq<Byte>, ParseError>)
    requires |s| > 0
    requires IsAscii(s)
    ensures r.Err? <==> exists k :: 0 <= k < |s| / 2 && Pair(s, k).None?
    ensures r.Ok? ==> |r.value| == |s| / 2
    ensures r.Ok? ==> forall k :: 0 <= k < |s| / 2 ==> r.value[k] == Pair(s, k).value
  {
    DecodePairsSpec(s);
    DecodePairs(s)
  }

  /** Every pair made of two hex digits: byte k is 16 * digit(s[2k]) + digit(s[2k+1]). */
  lemma DecodeHexDigits(s: string)
    requires |s| > 0 && IsAscii(s)
    requires forall i :: 0 <= i < |s| / 2 * 2 ==> IsHexDigit(s[i])
    ensures Decode(s).Ok?
    ensures |Decode(s).value| == |s| / 2
    ensures forall k :: 0 <= k < |s| / 2 ==>
              Decode(s).value[k] == 16 * DigitValue(s[2 * k]) + DigitValue(s[2 * k + 1])
  {
    forall k | 0 <= k < |s| / 2
      ensures Pair(s, k) == Some(16 * DigitValue(s[2 * k]) + DigitValue(s[2 * k + 1]))
    {
      assert IsHexDigit(s[2 * k]) && IsHexDigit(s[2 * k + 1]);
    }
  }

  /** An odd trailing character is dropped, never parsed. */
  lemma {:induction false} DecodePairsIgnoresTrailingChar(s: string, c: char)
    requires |s| % 2 == 0
    ensures DecodePairs(s + [c]) == DecodePairs(s)
    decreases |s|
  {
    if |s| >= 2 {
      assert (s + [c])[2..] == s[2..] + [c];
      DecodePairsIgnoresTrailingChar(s[2..], c);
    }
  }

  lemma DecodeIgnoresTrailingChar(s: string, c: char)
    requires |s| > 0 && |s| % 2 == 0
    requires IsAscii(s) && c as int < 128
    ensures Decode(s + [c]) == Decode(s)
  {
    DecodePairsIgnoresTrailingChar(s, c);
  }

  /** The lower-case hex digit of a value below 16. */
  function HexChar(d: nat): (c: char)
    requires d < 16
    ensures IsHexDigit(c) && DigitValue(c) == d
    ensures !('A' <= c <= 'F')
  {
    "0123456789abcdef"[d]
  }

  /** Lower-case hex encoding, two digits per byte: the inverse of decoding. */
  function Encode(bs: seq<Byte>): (s: string)
    ensures |s| == 2 * |bs|
    ensures IsAscii(s)
    ensures forall i :: 0 <= i < |s| ==> IsHexDigit(s[i])
  {
    if bs == [] then [] else [HexChar(bs[0] / 16), HexChar(bs[0] % 16)] + Encode(bs[1..])
  }

  lemma {:induction false} DecodePairsEncode(bs: seq<Byte>)
    ensures DecodePairs(Encode(bs)) == Ok(bs)
  {
    if bs != [] {
      var s := Encode(bs);
      assert s[2..] == Encode(bs[1..]);
      DecodePairsEncode(bs[1..]);
      assert ParsePair(s[0], s[1]) == Some(bs[0]);
      assert bs == [bs[0]] + bs[1..];
    }
  }

  /** Decoding an encoding gives the bytes back. */
  lemma DecodeEncode(bs: seq<Byte>)
    requires bs != []
    ensures Decode(Encode(bs)) == Ok(bs)
  {
    DecodePairsEncode(bs);
  }

  function LowerChar(c: char): char
  {
    if 'A' <= c <= 'F' then (c as int - 'A' as int + 'a' as int) as char else c
  }

  function Lower(s: string): (r: string)
    ensures |r| == |s|
  {
    if s == [] then [] else [LowerChar(s[0])] + Lower(s[1..])
  }

  lemma HexCharOfDigit(c: char)
    requires IsHexDigit(c)
    ensures HexChar(DigitValue(c)) == LowerChar(c)
  {
  }

  /** A byte split into its two hex digits re-encodes as the lower-case pair. */
  lemma EncodePairByte(hi: char, lo: char, b: Byte)
    requires IsHexDigit(hi) && IsHexDigit(lo)
    requires b == 16 * DigitValue(hi) + DigitValue(lo)
    ensures HexChar(b / 16) == LowerChar(hi)
    ensures HexChar(b % 16) == LowerChar(lo)
  {
    assert b / 16 == DigitValue(hi) && b % 16 == DigitValue(lo);
    HexCharOfDigit(hi);
    HexCharOfDigit(lo);
  }

  lemma LowerPair(s: string)
    requires |s| >= 2
    ensures Lower(s) == [LowerChar(s[0]), LowerChar(s[1])] + Lower(s[2..])
  {
    assert s[1..][1..] == s[2..];
  }

  lemma EncodeCons(b: Byte, rest: seq<Byte>)
    ensures Encode([b] + rest) == [HexChar(b / 16), HexChar(b % 16)] + Encode(rest)
  {
    assert ([b] + rest)[1..] == rest;
  }

  /** A leading pair of hex digits contributes its byte in front of the rest of the decoding. */
  lemma DecodePairsCons(s: string, rest: seq<Byte>)
    requires |s| >= 2 && IsHexDigit(s[0]) && IsHexDigit(s[1])
    requires DecodePairs(s[2..]) == Ok(rest)
    ensures DecodePairs(s) == Ok([16 * DigitValue(s[0]) + DigitValue(s[1])] + rest)
  {
  }

  /** One pair of the induction below: a leading hex pair re-encodes as its lower-case form. */
  lemma EncodeDecodeStep(s: string, rest: seq<Byte>)
    requires |s| >= 2 && IsHexDigit(s[0]) && IsHexDigit(s[1])
    requires DecodePairs(s[2..]) == Ok(rest)
    requires Encode(rest) == Lower(s[2..])
    ensures DecodePairs(s).Ok?
    ensures Encode(DecodePairs(s).value) == Lower(s)
  {
    var b: Byte := 16 * DigitValue(s[0]) + DigitValue(s[1]);
    DecodePairsCons(s, rest);
    EncodeCons(b, rest);
    EncodePairByte(s[0], s[1], b);
    LowerPair(s);
  }

  /** Re-encoding decoded hex gives the input back, with letters in lower case. */
  lemma {:induction false} EncodeDecodePairs(s: string)
    requires |s| % 2 == 0
    requires forall i :: 0 <= i < |s| ==> IsHexDigit(s[i])
    ensures DecodePairs(s).Ok?
    ensures Encode(DecodePairs(s).value) == Lower(s)
    decreases |s|
  {
    if |s| >= 2 {
      var t := s[2..];
      assert forall i :: 0 <= i < |t| ==> IsHexDigit(t[i]) by {
        forall i | 0 <= i < |t|
          ensures IsHexDigit(t[i])
        {
          assert t[i] == s[i + 2];
        }
      }
      EncodeDecodePairs(t);
      EncodeDecodeStep(s, DecodePairs(t).value);
    }
  }

  lemma EncodeDecode(s: string)
    requires |s| > 0 && |s| % 2 == 0 && IsAscii(s)
    requires forall i :: 0 <= i < |s| ==> IsHexDigit(s[i])
    ensures Decode(s).Ok? && Encode(Decode(s).value) == Lower(s)
  {
    EncodeDecodePairs(s);
  }

  /** The library's sign handling: a pair "+d" is accepted as the byte whose value is the digit d. */
  lemma DecodeAcceptsPlusSign(d: char)
    requires IsHexDigit(d)
    ensures IsAscii(['+', d])
    ensures Decode(['+', d]) == Ok([DigitValue(d)])
  {
    var s := ['+', d];
    assert Pair(s, 0) == Some(DigitValue(d));
    var r := Decode(s);
    assert r.Ok? && |r.value| == 1 && r.value[0] == DigitValue(d);
    assert r.value == [DigitValue(d)];
  }
}
