/**
 * `b64e` / `b64d`: the standard base64 alphabet with `=` padding, as in
 * section 4 of RFC 4648.  Encoding gives the padded form.  Decoding is
 * CPython's lenient one: it skips characters outside the alphabet and stray
 * `=`, and stops at the first padding that completes a group.
 */
module Base64 {
  import opened Wrappers
  import opened Bytes

  /** The character of a 6-bit value. */
  function Char(n: int): (c: char)
    requires 0 <= n < 64
    ensures c != '='
  {
    if n < 26 then (('A' as int) + n) as char
    else if n < 52 then (('a' as int) + n - 26) as char
    else if n < 62 then (('0' as int) + n - 52) as char
    else if n == 62 then '+'
    else '/'
  }

  /** The 6-bit value of an alphabet character, or -1 for any other character. */
  function Index(c: char): (n: int)
    ensures -1 <= n < 64
    ensures n >= 0 ==> Char(n) == c
  {
    if 'A' <= c <= 'Z' then c as int - 'A' as int
    else if 'a' <= c <= 'z' then c as int - 'a' as int + 26
    else if '0' <= c <= '9' then c as int - '0' as int + 52
    else if c == '+' then 62
    else if c == '/' then 63
    else -1
  }

  lemma IndexOfChar(n: int)
    requires 0 <= n < 64
    ensures Index(Char(n)) == n
  {
  }

  predicate InAlphabet(c: char)
  {
    Index(c) >= 0
  }

  /** The four characters of three bytes. */
  function EncodeTriple(b0: Byte, b1: Byte, b2: Byte): (q: string)
    ensures |q| == 4 && forall i :: 0 <= i < 4 ==> InAlphabet(q[i])
  {
    [Char(b0 / 4), Char(b0 % 4 * 16 + b1 / 16), Char(b1 % 16 * 4 + b2 / 64), Char(b2 % 64)]
  }

  /** The last group of a byte string one byte short of a triple: one `=`. */
  function EncodePair(b0: Byte, b1: Byte): (q: string)
    ensures |q| == 4 && InAlphabet(q[0]) && InAlphabet(q[1]) && InAlphabet(q[2]) && q[3] == '='
  {
    [Char(b0 / 4), Char(b0 % 4 * 16 + b1 / 16), Char(b1 % 16 * 4), '=']
  }

  /** The last group of a single byte: two `=`. */
  function EncodeSingle(b0: Byte): (q: string)
    ensures |q| == 4 && InAlphabet(q[0]) && InAlphabet(q[1]) && q[2] == '=' && q[3] == '='
  {
    [Char(b0 / 4), Char(b0 % 4 * 16), '=', '=']
  }

  /** `base64.b64encode`, then read as text. */
  function Encode(b: Bytes): (s: string)
    ensures |s| == 4 * ((|b| + 2) / 3)
    ensures forall i :: 0 <= i < |s| ==> InAlphabet(s[i]) || s[i] == '='
    decreases |b|
  {
    if |b| == 0 then ""
    else if |b| == 1 then EncodeSingle(b[0])
    else if |b| == 2 then EncodePair(b[0], b[1])
    else
      var q, rest := EncodeTriple(b[0], b[1], b[2]), Encode(b[3..]);
      EncodedLength(|b|);
      assert forall i :: 4 <= i < |q + rest| ==> (q + rest)[i] == rest[i - 4];
      q + rest
  }

  lemma EncodedLength(n: nat)
    requires n >= 3
    ensures 4 + 4 * ((n - 3 + 2) / 3) == 4 * ((n + 2) / 3)
  {
    assert (n + 2) / 3 == (n - 3 + 2) / 3 + 1;
  }

  /** The first byte of a group, from its first two characters. */
  function Byte0(v0: int, v1: int): Byte
    requires 0 <= v0 < 64 && 0 <= v1 < 64
  {
    v0 * 4 + v1 / 16
  }

  function Byte1(v1: int, v2: int): Byte
    requires 0 <= v1 < 64 && 0 <= v2 < 64
  {
    v1 % 16 * 16 + v2 / 4
  }

  function Byte2(v2: int, v3: int): Byte
    requires 0 <= v2 < 64 && 0 <= v3 < 64
  {
    v2 % 4 * 64 + v3
  }

  /**
   * The state of `binascii.a2b_base64`, in the non-strict mode `b64decode`
   * uses, while it reads the text: `quad` is the position in the current
   * group of four data characters, `left` the 6-bit value of the last one,
   * `pads` the `=` counted since it, and `out` the bytes written so far.
   */
  datatype Scan = Scan(quad: int, left: int, pads: nat, out: Bytes)

  predicate ValidScan(st: Scan)
  {
    0 <= st.quad < 4 && 0 <= st.left < 64
  }

  /** The state at a group boundary, after the bytes `out`. */
  function Boundary(out: Bytes): (st: Scan)
    ensures ValidScan(st) && st.quad == 0 && st.out == out
  {
    Scan(0, 0, 0, out)
  }

  /**
   * One data character of value `v`.  The first character of a group only
   * sets `left`; each later one completes a byte from `left` and `v`.
   */
  function Step(st: Scan, v: int): (r: Scan)
    requires ValidScan(st) && 0 <= v < 64
    ensures ValidScan(r) && r.pads == 0 && r.quad == (st.quad + 1) % 4
    ensures |r.out| == |st.out| + (if st.quad == 0 then 0 else 1) && r.out[..|st.out|] == st.out
  {
    if st.quad == 0 then Scan(1, v, 0, st.out)
    else if st.quad == 1 then Scan(2, v, 0, st.out + [Byte0(st.left, v)])
    else if st.quad == 2 then Scan(3, v, 0, st.out + [Byte1(st.left, v)])
    else Boundary(st.out + [Byte2(st.left, v)])
  }

  /**
   * The rest of the decoding from state `st`.  A character outside the
   * alphabet is skipped.  A `=` is skipped too, unless it completes the
   * padding of a group holding two or three data characters: there decoding
   * stops and the rest of the text is ignored.  At the end of the text a
   * group left incomplete raises `binascii.Error`, which is None here.
   */
  function Run(s: string, st: Scan): (r: Option<Bytes>)
    requires ValidScan(st)
    ensures r.Some? ==> |st.out| <= |r.value| <= |st.out| + |s| && r.value[..|st.out|] == st.out
    decreases |s|
  {
    if s == [] then (if st.quad == 0 then Some(st.out) else None)
    else if s[0] == '=' then
      if st.quad >= 2 && st.quad + st.pads + 1 >= 4 then Some(st.out)
      else if st.quad >= 2 then Run(s[1..], st.(pads := st.pads + 1))
      else Run(s[1..], st)
    else if Index(s[0]) < 0 then Run(s[1..], st)
    else
      var next := Step(st, Index(s[0]));
      var r := Run(s[1..], next);
      assert r.Some? ==> r.value[..|st.out|] == r.value[..|next.out|][..|st.out|];
      r
  }

  /**
   * `b64d`: `base64.b64decode` of the text's UTF-8 bytes; None where it
   * raises `binascii.Error`.  A character outside ASCII becomes bytes that
   * are all outside the alphabet, so skipping it whole is the same as
   * skipping its bytes.
   */
  function Decode(s: string): (r: Option<Bytes>)
    ensures r.Some? ==> |r.value| <= |s|
    ensures s == [] ==> r == Some([])
  {
    Run(s, Boundary([]))
  }

  lemma DivMod4(x: int, q: int, r: int)
    requires x == q * 4 + r && 0 <= r < 4
    ensures x / 4 == q && x % 4 == r
  {
  }

  lemma DivMod16(x: int, q: int, r: int)
    requires x == q * 16 + r && 0 <= r < 16
    ensures x / 16 == q && x % 16 == r
  {
  }

  /** The arithmetic of one group: the 6-bit pieces of three bytes reassemble them. */
  lemma GroupArithmetic(b0: Byte, b1: Byte, b2: Byte)
    ensures Byte0(b0 / 4, b0 % 4 * 16 + b1 / 16) == b0
    ensures Byte1(b0 % 4 * 16 + b1 / 16, b1 % 16 * 4 + b2 / 64) == b1
    ensures Byte2(b1 % 16 * 4 + b2 / 64, b2 % 64) == b2
  {
    DivMod16(b0 % 4 * 16 + b1 / 16, b0 % 4, b1 / 16);
    DivMod4(b1 % 16 * 4 + b2 / 64, b1 % 16, b2 / 64);
  }

  lemma PaddedArithmetic(b0: Byte, b1: Byte)
    ensures Byte0(b0 / 4, b0 % 4 * 16) == b0
    ensures Byte1(b0 % 4 * 16 + b1 / 16, b1 % 16 * 4) == b1
  {
    DivMod16(b0 % 4 * 16, b0 % 4, 0);
    DivMod16(b0 % 4 * 16 + b1 / 16, b0 % 4, b1 / 16);
    DivMod4(b1 % 16 * 4, b1 % 16, 0);
  }

  lemma RunData(c: char, s: string, st: Scan)
    requires ValidScan(st) && InAlphabet(c)
    ensures Run([c] + s, st) == Run(s, Step(st, Index(c)))
  {
    assert ([c] + s)[1..] == s;
  }

  lemma RunPad(s: string, st: Scan)
    requires ValidScan(st)
    ensures Run(['='] + s, st) ==
              if st.quad >= 2 && st.quad + st.pads + 1 >= 4 then Some(st.out)
              else if st.quad >= 2 then Run(s, st.(pads := st.pads + 1))
              else Run(s, st)
  {
    assert (['='] + s)[1..] == s;
  }

  /** A group of four data characters writes its three bytes and ends at a boundary. */
  lemma RunTriple(b0: Byte, b1: Byte, b2: Byte, rest: string, out: Bytes)
    ensures Run(EncodeTriple(b0, b1, b2) + rest, Boundary(out)) == Run(rest, Boundary(out + [b0, b1, b2]))
  {
    var q := EncodeTriple(b0, b1, b2);
    var v0, v1, v2, v3 := b0 / 4, b0 % 4 * 16 + b1 / 16, b1 % 16 * 4 + b2 / 64, b2 % 64;
    IndexOfChar(v0); IndexOfChar(v1); IndexOfChar(v2); IndexOfChar(v3);
    var x3 := [q[3]] + rest;
    var x2 := [q[2]] + x3;
    var x1 := [q[1]] + x2;
    assert q + rest == [q[0]] + x1;
    var st1 := Step(Boundary(out), v0);
    RunData(q[0], x1, Boundary(out));
    var st2 := Step(st1, v1);
    RunData(q[1], x2, st1);
    var st3 := Step(st2, v2);
    RunData(q[2], x3, st2);
    RunData(q[3], rest, st3);
    TripleBytes(b0, b1, b2, out);
  }

  lemma TripleBytes(b0: Byte, b1: Byte, b2: Byte, out: Bytes)
    ensures Step(Step(Step(Step(Boundary(out), b0 / 4), b0 % 4 * 16 + b1 / 16), b1 % 16 * 4 + b2 / 64), b2 % 64)
            == Boundary(out + [b0, b1, b2])
  {
    GroupArithmetic(b0, b1, b2);
  }

  /** A group ending in one `=` writes its two bytes and stops the decoding. */
  lemma RunPair(b0: Byte, b1: Byte, rest: string, out: Bytes)
    ensures Run(EncodePair(b0, b1) + rest, Boundary(out)) == Some(out + [b0, b1])
  {
    var q := EncodePair(b0, b1);
    var v0, v1, v2 := b0 / 4, b0 % 4 * 16 + b1 / 16, b1 % 16 * 4;
    IndexOfChar(v0); IndexOfChar(v1); IndexOfChar(v2);
    var x3 := ['='] + rest;
    var x2 := [q[2]] + x3;
    var x1 := [q[1]] + x2;
    assert q + rest == [q[0]] + x1;
    var st1 := Step(Boundary(out), v0);
    RunData(q[0], x1, Boundary(out));
    var st2 := Step(st1, v1);
    RunData(q[1], x2, st1);
    var st3 := Step(st2, v2);
    RunData(q[2], x3, st2);
    RunPad(rest, st3);
    PairBytes(b0, b1, out);
  }

  lemma PairBytes(b0: Byte, b1: Byte, out: Bytes)
    ensures Step(Step(Step(Boundary(out), b0 / 4), b0 % 4 * 16 + b1 / 16), b1 % 16 * 4).out == out + [b0, b1]
  {
    PaddedArithmetic(b0, b1);
  }

  /** A group ending in `==` writes its one byte and stops the decoding. */
  lemma RunSingle(b0: Byte, rest: string, out: Bytes)
    ensures Run(EncodeSingle(b0) + rest, Boundary(out)) == Some(out + [b0])
  {
    var q := EncodeSingle(b0);
    var v0, v1 := b0 / 4, b0 % 4 * 16;
    IndexOfChar(v0); IndexOfChar(v1);
    var x2 := ['='] + (['='] + rest);
    var x1 := [q[1]] + x2;
    assert q + rest == [q[0]] + x1;
    var st1 := Step(Boundary(out), v0);
    RunData(q[0], x1, Boundary(out));
    var st2 := Step(st1, v1);
    RunData(q[1], x2, st1);
    RunTwoPads(rest, st2);
    SingleBytes(b0, out);
  }

  lemma SingleBytes(b0: Byte, out: Bytes)
    ensures Step(Step(Boundary(out), b0 / 4), b0 % 4 * 16).out == out + [b0]
  {
    PaddedArithmetic(b0, 0);
  }

  /** `==` after two data characters ends the decoding. */
  lemma RunTwoPads(rest: string, st: Scan)
    requires ValidScan(st) && st.quad == 2 && st.pads == 0
    ensures Run(['='] + (['='] + rest), st) == Some(st.out)
  {
    RunPad(['='] + rest, st);
    RunPad(rest, st.(pads := 1));
  }

  lemma Mod3Step(n: int)
    requires n > 0 && (n % 3 == 0 || n > 2)
    ensures n >= 3 && (n - 3) % 3 == n % 3
  {
  }

  lemma SplitAfterThree(out: Bytes, b: Bytes)
    requires |b| >= 3
    ensures out + b[..3] + b[3..] == out + b
  {
    assert b[..3] + b[3..] == b;
  }

  /** The first three bytes of a longer byte string are its first group. */
  lemma RunEncodeStep(b: Bytes, rest: string, out: Bytes)
    requires |b| >= 3
    ensures Run(Encode(b) + rest, Boundary(out)) == Run(Encode(b[3..]) + rest, Boundary(out + b[..3]))
  {
    var q, tail := EncodeTriple(b[0], b[1], b[2]), Encode(b[3..]);
    assert Encode(b) + rest == q + (tail + rest);
    RunTriple(b[0], b[1], b[2], tail + rest, out);
    assert b[..3] == [b[0], b[1], b[2]];
  }

  /**
   * Decoding the encoding of whole triples, followed by any text, writes
   * their bytes and reads the text from a group boundary.
   */
  lemma {:induction false} RunEncodeWhole(b: Bytes, rest: string, out: Bytes)
    requires |b| % 3 == 0
    ensures Run(Encode(b) + rest, Boundary(out)) == Run(rest, Boundary(out + b))
    decreases |b|
  {
    if b == [] {
      assert Encode(b) + rest == rest && out + b == out;
    } else {
      Mod3Step(|b|);
      RunEncodeStep(b, rest, out);
      RunEncodeWhole(b[3..], rest, out + b[..3]);
      SplitAfterThree(out, b);
    }
  }

  /** Decoding an encoding that ends in padding writes its bytes and ignores what follows. */
  lemma {:induction false} RunEncodePadded(b: Bytes, rest: string, out: Bytes)
    requires |b| % 3 != 0
    ensures Run(Encode(b) + rest, Boundary(out)) == Some(out + b)
    decreases |b|
  {
    if |b| == 1 {
      RunSingle(b[0], rest, out);
      assert out + [b[0]] == out + b;
    } else if |b| == 2 {
      RunPair(b[0], b[1], rest, out);
      assert out + [b[0], b[1]] == out + b;
    } else {
      Mod3Step(|b|);
      RunEncodeStep(b, rest, out);
      RunEncodePadded(b[3..], rest, out + b[..3]);
      SplitAfterThree(out, b);
    }
  }

  /** `b64d(b64e(b)) == b` for every byte string. */
  lemma DecodeEncode(b: Bytes)
    ensures Decode(Encode(b)) == Some(b)
  {
    assert Encode(b) + "" == Encode(b);
    if |b| % 3 == 0 {
      RunEncodeWhole(b, "", []);
    } else {
      RunEncodePadded(b, "", []);
    }
  }

  /**
   * Once padding completes a group, the rest of the text is not read: the
   * encoding of a byte string that is not whole triples decodes to it
   * whatever follows.
   */
  lemma DataAfterPaddingIgnored(b: Bytes, rest: string)
    requires |b| % 3 != 0
    ensures Decode(Encode(b) + rest) == Some(b)
  {
    RunEncodePadded(b, rest, []);
  }

  /** The bytes already written do not influence the rest of the decoding. */
  lemma {:induction false} RunAfter(s: string, st: Scan, pre: Bytes)
    requires ValidScan(st)
    ensures Run(s, st.(out := pre + st.out)).Some? <==> Run(s, st).Some?
    ensures Run(s, st).Some? ==> Run(s, st.(out := pre + st.out)) == Some(pre + Run(s, st).value)
    decreases |s|
  {
    var st' := st.(out := pre + st.out);
    if s != [] {
      if s[0] == '=' {
        if st.quad >= 2 && st.quad + st.pads + 1 >= 4 {
        } else if st.quad >= 2 {
          RunAfter(s[1..], st.(pads := st.pads + 1), pre);
          assert st'.(pads := st.pads + 1) == st.(pads := st.pads + 1).(out := pre + st.out);
        } else {
          RunAfter(s[1..], st, pre);
        }
      } else if Index(s[0]) >= 0 {
        var next := Step(st, Index(s[0]));
        RunAfter(s[1..], next, pre);
        assert Step(st', Index(s[0])) == next.(out := pre + next.out);
      } else {
        RunAfter(s[1..], st, pre);
      }
    }
  }

  /**
   * Text after whole groups is decoded on its own and appended: a stray `=`
   * after them is skipped, so `b64d("QUJD=")` is `b"ABC"`.
   */
  lemma WholeGroupsThenRest(b: Bytes, rest: string)
    requires |b| % 3 == 0
    ensures Decode(Encode(b) + rest).Some? <==> Decode(rest).Some?
    ensures Decode(rest).Some? ==> Decode(Encode(b) + rest) == Some(b + Decode(rest).value)
  {
    RunEncodeWhole(b, rest, []);
    assert [] + b == b;
    BoundaryAfter(rest, b);
  }

  /** Decoding from a group boundary after the bytes `pre` is decoding afresh, then appending. */
  lemma BoundaryAfter(s: string, pre: Bytes)
    ensures Run(s, Boundary(pre)).Some? <==> Decode(s).Some?
    ensures Decode(s).Some? ==> Run(s, Boundary(pre)) == Some(pre + Decode(s).value)
  {
    RunAfter(s, Boundary([]), pre);
    assert Boundary([]).(out := pre + []) == Boundary(pre);
  }

  /** The characters `b64decode` reads: the alphabet and `=`, in order. */
  function Significant(s: string): (r: string)
    ensures |r| <= |s|
    ensures forall i :: 0 <= i < |r| ==> InAlphabet(r[i]) || r[i] == '='
  {
    if s == [] then []
    else if InAlphabet(s[0]) || s[0] == '=' then [s[0]] + Significant(s[1..])
    else Significant(s[1..])
  }

  lemma {:induction false} RunSignificant(s: string, st: Scan)
    requires ValidScan(st)
    ensures Run(s, st) == Run(Significant(s), st)
    decreases |s|
  {
    if s != [] {
      var k := Significant(s[1..]);
      if InAlphabet(s[0]) {
        RunData(s[0], k, st);
        RunSignificant(s[1..], Step(st, Index(s[0])));
      } else if s[0] == '=' {
        RunPad(k, st);
        if st.quad >= 2 && st.quad + st.pads + 1 < 4 {
          RunSignificant(s[1..], st.(pads := st.pads + 1));
        } else if st.quad < 2 {
          RunSignificant(s[1..], st);
        }
      } else {
        RunSignificant(s[1..], st);
      }
    }
  }

  /** Characters outside the alphabet, such as whitespace, are discarded. */
  lemma OthersIgnored(s: string)
    ensures Decode(s) == Decode(Significant(s))
  {
    RunSignificant(s, Boundary([]));
  }

  /** The number of alphabet characters in `s`. */
  function DataCount(s: string): (n: nat)
    ensures n <= |s|
  {
    if s == [] then 0 else (if InAlphabet(s[0]) then 1 else 0) + DataCount(s[1..])
  }

  lemma {:induction false} RunUnpadded(s: string, st: Scan)
    requires ValidScan(st) && '=' !in s
    ensures Run(s, st).Some? <==> (st.quad + DataCount(s)) % 4 == 0
    decreases |s|
  {
    if s != [] {
      assert s[0] != '=' && '=' !in s[1..];
      if InAlphabet(s[0]) {
        RunUnpadded(s[1..], Step(st, Index(s[0])));
      } else {
        RunUnpadded(s[1..], st);
      }
    }
  }

  /** Text without padding decodes exactly when its alphabet characters fill whole groups of four. */
  lemma UnpaddedDecodes(s: string)
    requires '=' !in s
    ensures Decode(s).Some? <==> DataCount(s) % 4 == 0
  {
    RunUnpadded(s, Boundary([]));
  }
}
