/**
 * Byte strings and their lowercase hexadecimal form (Python's `bytes.hex()`).
 */
module Bytes {
  import opened Wrappers

  type Byte = x: int | 0 <= x < 256
  type Bytes = seq<Byte>

  /** The ASCII code units of a string of code points below 256. */
  function Ascii(s: string): (r: Bytes)
    requires forall i :: 0 <= i < |s| ==> s[i] as int < 256
    ensures |r| == |s| && forall i :: 0 <= i < |s| ==> r[i] == s[i] as int
  {
    if s == [] then [] else [s[0] as int as Byte] + Ascii(s[1..])
  }

  /** The lowercase hex digit of a nibble. */
  function HexDigit(n: int): (c: char)
    requires 0 <= n < 16
    ensures '0' <= c <= '9' || 'a' <= c <= 'f'
  {
    if n < 10 then (('0' as int) + n) as char else (('a' as int) + n - 10) as char
  }

  /** The nibble a lowercase hex digit stands for, or -1. */
  function HexValue(c: char): (n: int)
    ensures -1 <= n < 16
    ensures n >= 0 ==> HexDigit(n) == c
  {
    if '0' <= c <= '9' then c as int - '0' as int
    else if 'a' <= c <= 'f' then c as int - 'a' as int + 10
    else -1
  }

  lemma HexValueOfDigit(n: int)
    requires 0 <= n < 16
    ensures HexValue(HexDigit(n)) == n
  {
  }

  /** `bytes.hex()`: two lowercase digits per byte, high nibble first. */
  function Hex(b: Bytes): (r: string)
    ensures |r| == 2 * |b|
    ensures forall i :: 0 <= i < |r| ==> '0' <= r[i] <= '9' || 'a' <= r[i] <= 'f'
  {
    if b == [] then ""
    else
      var rest := Hex(b[1..]);
      var r := [HexDigit(b[0] / 16), HexDigit(b[0] % 16)] + rest;
      assert forall i :: 2 <= i < |r| ==> r[i] == rest[i - 2];
      r
  }

  /** The byte two hex digits stand for (the high nibble first), or 0 if either is not one. */
  function PairValue(hi: char, lo: char): (b: Byte)
  {
    if HexValue(hi) < 0 || HexValue(lo) < 0 then 0 else HexValue(hi) * 16 + HexValue(lo)
  }

  /** `bytes.fromhex` restricted to lowercase digits without separators. */
  function UnHex(s: string): (r: Option<Bytes>)
    ensures r.Some? <==> |s| % 2 == 0 && forall i :: 0 <= i < |s| ==> HexValue(s[i]) >= 0
    ensures r.Some? ==> 2 * |r.value| == |s|
  {
    if |s| % 2 == 0 && forall i :: 0 <= i < |s| ==> HexValue(s[i]) >= 0
    then Some(seq(|s| / 2, i requires 0 <= i < |s| / 2 => PairValue(s[2 * i], s[2 * i + 1])))
    else None
  }

  /** The two digits of byte `i` sit at positions `2i` and `2i + 1`. */
  lemma {:induction false} HexAt(b: Bytes, i: int)
    requires 0 <= i < |b|
    ensures Hex(b)[2 * i] == HexDigit(b[i] / 16) && Hex(b)[2 * i + 1] == HexDigit(b[i] % 16)
  {
    if i > 0 {
      HexAt(b[1..], i - 1);
    }
  }

  /** The two digits of a byte read back as that byte. */
  lemma PairOfDigits(x: Byte)
    ensures PairValue(HexDigit(x / 16), HexDigit(x % 16)) == x
  {
    HexValueOfDigit(x / 16);
    HexValueOfDigit(x % 16);
  }

  lemma HexIsValid(b: Bytes)
    ensures UnHex(Hex(b)).Some?
  {
    var s := Hex(b);
    assert forall i :: 0 <= i < |s| ==> HexValue(s[i]) >= 0;
  }

  lemma UnHexHexAt(b: Bytes, i: int)
    requires 0 <= i < |b| && UnHex(Hex(b)).Some?
    ensures |UnHex(Hex(b)).value| == |b| && UnHex(Hex(b)).value[i] == b[i]
  {
    HexAt(b, i);
    PairOfDigits(b[i]);
  }

  /** Hex decoding inverts hex encoding. */
  lemma UnHexHex(b: Bytes)
    ensures UnHex(Hex(b)) == Some(b)
  {
    HexIsValid(b);
    var d := UnHex(Hex(b)).value;
    forall i | 0 <= i < |b|
      ensures d[i] == b[i]
    {
      UnHexHexAt(b, i);
    }
    assert |d| == |b|;
    assert d == b;
  }
}
