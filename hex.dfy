/** Go's `encoding/hex`: `EncodeToString` and `DecodeString`. */
module Hex {
  import opened Text

  /** A Go `byte`. */
  type byte = x: int | 0 <= x < 256

  /** The lower-case digits `EncodeToString` writes. */
  const Digits: string := "0123456789abcdef"

  /** The value of a hex digit of either case, or -1 for any other rune
      (Go's `reverseHexTable`). */
  function FromHexChar(c: char): (v: int)
    ensures -1 <= v < 16
    ensures v >= 0 <==> ('0' <= c <= '9' || 'a' <= c <= 'f' || 'A' <= c <= 'F')
  {
    if '0' <= c <= '9' then c as int - '0' as int
    else if 'a' <= c <= 'f' then c as int - 'a' as int + 10
    else if 'A' <= c <= 'F' then c as int - 'A' as int + 10
    else -1
  }

  /** Nibble `i` of `b`, most significant first: the high half of byte `i / 2`
      when `i` is even, the low half when it is odd. */
  function NibbleOf(b: seq<byte>, i: int): int
    requires 0 <= i < 2 * |b|
  {
    if i % 2 == 0 then b[i / 2] / 16 else b[i / 2] % 16
  }

  /** `hex.EncodeToString`: two lower-case digits per byte, high nibble first. */
  function EncodeToString(b: seq<byte>): (s: string)
    ensures |s| == 2 * |b|
  {
    if b == [] then ""
    else [Digits[b[0] / 16], Digits[b[0] % 16]] + EncodeToString(b[1..])
  }

  /** Rune `i` of the encoding is the digit of nibble `i`. */
  lemma {:induction false} EncodeAt(b: seq<byte>, i: int)
    requires 0 <= i < 2 * |b|
    ensures EncodeToString(b)[i] == Digits[NibbleOf(b, i)]
  {
    if i >= 2 {
      EncodeAt(b[1..], i - 2);
      assert NibbleOf(b[1..], i - 2) == NibbleOf(b, i);
    }
  }

  /** Every rune `EncodeToString` writes is a lower-case hex digit, and none
      is a dot. */
  lemma EncodedIsHex(b: seq<byte>)
    ensures forall i :: 0 <= i < |EncodeToString(b)| ==> FromHexChar(EncodeToString(b)[i]) >= 0
    ensures '.' !in EncodeToString(b)
    ensures NoUpper(EncodeToString(b))
  {
    forall i | 0 <= i < |EncodeToString(b)|
      ensures FromHexChar(EncodeToString(b)[i]) >= 0 && EncodeToString(b)[i] != '.'
      ensures !('A' <= EncodeToString(b)[i] <= 'Z')
    {
      EncodeAt(b, i);
      DigitValue(NibbleOf(b, i));
    }
  }

  /** Encoding a slice from its first byte on. */
  lemma EncodeSliceStep(b: seq<byte>, k: int, n: int)
    requires 0 <= k < n <= |b|
    ensures EncodeToString(b[k..n]) == [Digits[b[k] / 16], Digits[b[k] % 16]] + EncodeToString(b[k + 1..n])
  {
    assert b[k..n][1..] == b[k + 1..n];
  }

  lemma {:induction false} EncodeAppend(a: seq<byte>, b: seq<byte>)
    ensures EncodeToString(a + b) == EncodeToString(a) + EncodeToString(b)
  {
    if a != [] {
      assert (a + b)[0] == a[0] && (a + b)[1..] == a[1..] + b;
      EncodeAppend(a[1..], b);
    } else {
      assert a + b == b;
    }
  }

  /** True when runes `i` and `i + 1` of `s` form a valid hex pair. */
  predicate PairAt(s: string, i: int)
    requires 0 <= i && i + 1 < |s|
  {
    FromHexChar(s[i]) >= 0 && FromHexChar(s[i + 1]) >= 0
  }

  /** The byte that the valid hex pair at `i` stands for. */
  function PairValue(s: string, i: int): byte
    requires 0 <= i && i + 1 < |s| && PairAt(s, i)
  {
    (16 * FromHexChar(s[i]) + FromHexChar(s[i + 1]))
  }

  /** The bytes `hex.DecodeString(s)` returns, its error being ignored: the
      pairs are decoded left to right up to the first pair holding a non-hex
      rune, and a trailing unpaired digit is dropped. */
  function DecodeString(s: string): (b: seq<byte>)
    ensures |b| <= |s| / 2
  {
    if |s| < 2 || FromHexChar(s[0]) < 0 || FromHexChar(s[1]) < 0 then []
    else [(16 * FromHexChar(s[0]) + FromHexChar(s[1]))] + DecodeString(s[2..])
  }

  /** What `DecodeString` keeps: byte `i` is the pair at `2 * i`, every pair
      before the end is valid, and decoding stops only at the end of the text,
      at a lone last digit, or at the first invalid pair. */
  lemma {:induction false} DecodeStringPairs(s: string)
    ensures forall i :: 0 <= i < |DecodeString(s)| ==>
      PairAt(s, 2 * i) && DecodeString(s)[i] == PairValue(s, 2 * i)
    ensures |DecodeString(s)| < |s| / 2 ==> !PairAt(s, 2 * |DecodeString(s)|)
  {
    if |s| >= 2 && FromHexChar(s[0]) >= 0 && FromHexChar(s[1]) >= 0 {
      var t := s[2..];
      DecodeStringPairs(t);
      forall i | 0 <= i < |DecodeString(s)|
        ensures PairAt(s, 2 * i) && DecodeString(s)[i] == PairValue(s, 2 * i)
      {
        if i > 0 {
          assert DecodeString(s)[i] == DecodeString(t)[i - 1];
          assert s[2 * i] == t[2 * (i - 1)] && s[2 * i + 1] == t[2 * (i - 1) + 1];
        }
      }
      if |DecodeString(s)| < |s| / 2 {
        var k := |DecodeString(t)|;
        assert s[2 * (k + 1)] == t[2 * k] && s[2 * (k + 1) + 1] == t[2 * k + 1];
      }
    }
  }

  /** Text made only of hex digits decodes in full: one byte per pair, with
      only a lone last digit left over. */
  lemma {:induction false} DecodeHexLength(s: string)
    requires forall i :: 0 <= i < |s| ==> FromHexChar(s[i]) >= 0
    ensures |DecodeString(s)| == |s| / 2
  {
    if |s| >= 2 {
      assert FromHexChar(s[0]) >= 0 && FromHexChar(s[1]) >= 0;
      assert forall i :: 0 <= i < |s[2..]| ==> s[2..][i] == s[i + 2];
      DecodeHexLength(s[2..]);
    }
  }

  lemma DigitValue(x: int)
    requires 0 <= x < 16
    ensures FromHexChar(Digits[x]) == x
    ensures !('A' <= Digits[x] <= 'Z')
  {
  }

  /** Decoding undoes encoding, whatever follows the encoded bytes. */
  lemma {:induction false} DecodeEncode(b: seq<byte>, t: string)
    ensures DecodeString(EncodeToString(b) + t) == b + DecodeString(t)
  {
    if b == [] {
      assert EncodeToString(b) + t == t;
    } else {
      var rest := EncodeToString(b[1..]) + t;
      calc {
        DecodeString(EncodeToString(b) + t);
        { EncodeConsAppend(b, t); }
        DecodeString([Digits[b[0] / 16], Digits[b[0] % 16]] + rest);
        { DecodePair(b[0], rest); }
        [b[0]] + DecodeString(rest);
        { DecodeEncode(b[1..], t); }
        [b[0]] + (b[1..] + DecodeString(t));
        { assert b == [b[0]] + b[1..]; }
        b + DecodeString(t);
      }
    }
  }

  lemma EncodeConsAppend(b: seq<byte>, t: string)
    requires b != []
    ensures EncodeToString(b) + t == [Digits[b[0] / 16], Digits[b[0] % 16]] + (EncodeToString(b[1..]) + t)
  {
  }

  /** The two digits written for a byte decode to that byte. */
  lemma DecodePair(x: byte, rest: string)
    ensures DecodeString([Digits[x / 16], Digits[x % 16]] + rest) == [x] + DecodeString(rest)
  {
    var hi, lo := x / 16, x % 16;
    var s := [Digits[hi], Digits[lo]] + rest;
    DigitValue(hi);
    DigitValue(lo);
    assert s[0] == Digits[hi] && s[1] == Digits[lo] && s[2..] == rest;
    assert 16 * hi + lo == x;
  }

  /** The first `n` hex digits of an encoding decode to its first `n / 2`
      bytes: an odd last digit is dropped. */
  lemma DecodeEncodedPrefix(b: seq<byte>, n: int)
    requires 0 <= n <= 2 * |b|
    ensures DecodeString(EncodeToString(b)[..n]) == b[..n / 2]
  {
    Halves(n);
    DecodeEncodedWholeBytes(b, n / 2, n);
  }

  lemma Halves(n: int)
    requires 0 <= n
    ensures 0 <= 2 * (n / 2) <= n <= 2 * (n / 2) + 1
  {
  }

  lemma DecodeEncodedWholeBytes(b: seq<byte>, h: int, n: int)
    requires 0 <= 2 * h <= n <= 2 * h + 1 && n <= 2 * |b|
    ensures DecodeString(EncodeToString(b)[..n]) == b[..h]
  {
    var tail := EncodeToString(b)[2 * h..n];
    EncodedPrefixSplit(b, h, n);
    assert DecodeString(tail) == [];
    DecodeEncode(b[..h], tail);
    assert b[..h] + [] == b[..h];
  }

  /** The first `n` digits of an encoding are the encoding of its first
      `h` bytes followed by the digits from `2 * h` to `n`. */
  lemma EncodedPrefixSplit(b: seq<byte>, h: int, n: int)
    requires 0 <= 2 * h <= n <= 2 * |b|
    ensures EncodeToString(b)[..n] == EncodeToString(b[..h]) + EncodeToString(b)[2 * h..n]
  {
    var e := EncodeToString(b);
    SliceSplit(b, h, |b|);
    assert b[..|b|] == b;
    EncodeAppend(b[..h], b[h..]);
    PrefixOfAppend(EncodeToString(b[..h]), EncodeToString(b[h..]));
    SliceSplit(e, 2 * h, n);
  }

  /** A lone digit after an even number of runes is never decoded. */
  lemma {:induction false} DecodeDropsLoneDigit(x: string, c: char)
    requires |x| % 2 == 0
    ensures DecodeString(x + [c]) == DecodeString(x)
  {
    if |x| >= 2 {
      var s := x + [c];
      assert s[0] == x[0] && s[1] == x[1] && s[2..] == x[2..] + [c];
      DecodeDropsLoneDigit(x[2..], c);
    } else {
      assert |x + [c]| == 1;
    }
  }
}
