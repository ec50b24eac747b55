/** The standard base64 alphabet with padding, as section 4 of RFC 4648
    defines it: every 3 input bytes become 4 symbols of 6 bits each, and a
    final group of 1 or 2 bytes is padded with `==` or `=`. This is the
    encoding Python's `base64.b64encode` produces. */
module Base64 {
  import opened Wrappers
  import opened Bytes

  /** The ASCII code of symbol `i` of the alphabet (Table 1 of RFC 4648). */
  function Symbol(i: int): (c: byte)
    requires 0 <= i < 64
  {
    if i < 26 then (65 + i) as byte            // 'A'..'Z'
    else if i < 52 then (97 + i - 26) as byte  // 'a'..'z'
    else if i < 62 then (48 + i - 52) as byte  // '0'..'9'
    else if i == 62 then 43 as byte            // '+'
    else 47 as byte                            // '/'
  }

  /** The 6-bit value of an alphabet symbol, `None` for any other byte. */
  function SymbolValue(c: byte): (r: Option<int>)
    ensures r.Some? ==> 0 <= r.value < 64 && Symbol(r.value) == c
  {
    if 65 <= c <= 90 then Some(c as int - 65)
    else if 97 <= c <= 122 then Some(c as int - 71)
    else if 48 <= c <= 57 then Some(c as int + 4)
    else if c == 43 then Some(62)
    else if c == 47 then Some(63)
    else None
  }

  /** The pad character `=`. */
  const PAD: byte := 61

  predicate InAlphabet(c: byte)
  {
    SymbolValue(c).Some?
  }

  /** Symbols and values are inverse on the alphabet. */
  lemma SymbolInverse(i: int)
    requires 0 <= i < 64
    ensures SymbolValue(Symbol(i)) == Some(i)
  {
  }

  /** Three bytes as four symbols. */
  function EncodeTriple(b0: byte, b1: byte, b2: byte): seq<byte>
  {
    [Symbol(b0 as int / 4), Symbol((b0 as int % 4) * 16 + b1 as int / 16),
     Symbol((b1 as int % 16) * 4 + b2 as int / 64), Symbol(b2 as int % 64)]
  }

  /** `base64.b64encode` */
  function Encode(s: seq<byte>): (r: seq<byte>)
    ensures |r| == 4 * ((|s| + 2) / 3)
    decreases |s|
  {
    if |s| == 0 then []
    else if |s| == 1 then
      [Symbol(s[0] as int / 4), Symbol((s[0] as int % 4) * 16), PAD, PAD]
    else if |s| == 2 then
      [Symbol(s[0] as int / 4), Symbol((s[0] as int % 4) * 16 + s[1] as int / 16),
       Symbol((s[1] as int % 16) * 4), PAD]
    else EncodeTriple(s[0], s[1], s[2]) + Encode(s[3..])
  }

  /** The test vectors of section 10 of RFC 4648: "f", "fo" and "foo"
      become "Zg==", "Zm8=" and "Zm9v". */
  lemma Vectors()
    ensures Encode([102]) == [90, 103, 61, 61]
    ensures Encode([102, 111]) == [90, 109, 56, 61]
    ensures Encode([102, 111, 111]) == [90, 109, 57, 118]
  {
    assert [102 as byte, 111, 111][3..] == [];
  }

  /** The shape of the final group of an encoding of `n` bytes (section
      3.5 of RFC 4648): `==` exactly when one byte is left over, and then
      the symbol before it carries a multiple of 16; a single `=` exactly
      when two are left over, and then the symbol before it carries a
      multiple of 4; no pad when none is. */
  ghost predicate FinalGroup(e: seq<byte>, n: nat)
  {
    && (n % 3 == 0 ==> e == [] || e[|e| - 1] != PAD)
    && (n % 3 == 1 ==> |e| >= 4 && e[|e| - 1] == PAD && e[|e| - 2] == PAD
                       && SymbolValue(e[|e| - 3]).Some? && SymbolValue(e[|e| - 3]).value % 16 == 0)
    && (n % 3 == 2 ==> |e| >= 4 && e[|e| - 1] == PAD && e[|e| - 2] != PAD
                       && SymbolValue(e[|e| - 2]).Some? && SymbolValue(e[|e| - 2]).value % 4 == 0)
  }

  /** A group in front does not change the final group. */
  lemma FinalGroupPrepend(h: seq<byte>, t: seq<byte>, n: nat)
    requires |t| >= 4 && FinalGroup(t, n)
    ensures FinalGroup(h + t, n + 3)
  {
    var e := h + t;
    assert (n + 3) % 3 == n % 3;
    assert e[|e| - 3] == t[|t| - 3] && e[|e| - 2] == t[|t| - 2] && e[|e| - 1] == t[|t| - 1];
  }

  /** A symbol is never the pad, and carries its own value. */
  lemma SymbolNotPad(v: int)
    requires 0 <= v < 64
    ensures SymbolValue(Symbol(v)) == Some(v) && Symbol(v) != PAD
  {
    SymbolInverse(v);
  }

  lemma FinalGroupOne(s: seq<byte>)
    requires |s| == 1
    ensures FinalGroup(Encode(s), 1)
  {
    var v := (s[0] as int % 4) * 16;
    assert v % 16 == 0;
    SymbolNotPad(v);
    var e := Encode(s);
    assert |e| == 4 && e[2] == PAD && e[3] == PAD;
    assert e[1] == Symbol(v);
  }

  lemma FinalGroupTwo(s: seq<byte>)
    requires |s| == 2
    ensures FinalGroup(Encode(s), 2)
  {
    var v := (s[1] as int % 16) * 4;
    assert v % 4 == 0;
    SymbolNotPad(v);
    var e := Encode(s);
    assert |e| == 4 && e[3] == PAD;
    assert e[2] == Symbol(v);
  }

  lemma FinalGroupThree(s: seq<byte>)
    requires |s| == 3
    ensures FinalGroup(Encode(s), 3)
  {
    assert s[3..] == [];
    SymbolInverse(s[2] as int % 64);
    assert Encode(s) == EncodeTriple(s[0], s[1], s[2]);
  }

  /** So the unused low bits of every encoding are zero. */
  lemma {:induction false} EncodeFinalGroup(s: seq<byte>)
    ensures FinalGroup(Encode(s), |s|)
    decreases |s|
  {
    if |s| == 1 {
      FinalGroupOne(s);
    } else if |s| == 2 {
      FinalGroupTwo(s);
    } else if |s| == 3 {
      FinalGroupThree(s);
    } else if |s| > 3 {
      var t := Encode(s[3..]);
      EncodeFinalGroup(s[3..]);
      FinalGroupPrepend(EncodeTriple(s[0], s[1], s[2]), t, |s[3..]|);
      assert Encode(s) == EncodeTriple(s[0], s[1], s[2]) + t;
    }
  }

  /** Four symbols without padding as three bytes. */
  function DecodeQuad(q: seq<byte>): Option<seq<byte>>
    requires |q| == 4
  {
    match (SymbolValue(q[0]), SymbolValue(q[1]), SymbolValue(q[2]), SymbolValue(q[3]))
    case (Some(v0), Some(v1), Some(v2), Some(v3)) =>
      Some([(v0 * 4 + v1 / 16) as byte, ((v1 % 16) * 16 + v2 / 4) as byte, ((v2 % 4) * 64 + v3) as byte])
    case _ => None
  }

  /** The last group of four, which may end in one or two pad characters. */
  function DecodeLast(q: seq<byte>): Option<seq<byte>>
    requires |q| == 4
  {
    if q[2] == PAD && q[3] == PAD then
      match (SymbolValue(q[0]), SymbolValue(q[1]))
      case (Some(v0), Some(v1)) => Some([(v0 * 4 + v1 / 16) as byte])
      case _ => None
    else if q[3] == PAD then
      match (SymbolValue(q[0]), SymbolValue(q[1]), SymbolValue(q[2]))
      case (Some(v0), Some(v1), Some(v2)) =>
        Some([(v0 * 4 + v1 / 16) as byte, ((v1 % 16) * 16 + v2 / 4) as byte])
      case _ => None
    else DecodeQuad(q)
  }

  /** A decoder for the padded alphabet: `None` where the input is not a
      sequence of groups of four with padding only in the last group. Like
      Python's decoder it ignores the unused low bits of a padded group. */
  function Decode(s: seq<byte>): Option<seq<byte>>
    decreases |s|
  {
    if |s| == 0 then Some([])
    else if |s| < 4 then None
    else if |s| == 4 then DecodeLast(s)
    else match (DecodeQuad(s[..4]), Decode(s[4..]))
      case (Some(head), Some(tail)) => Some(head + tail)
      case _ => None
  }

  lemma DecodeEncodeTriple(b0: byte, b1: byte, b2: byte)
    ensures DecodeQuad(EncodeTriple(b0, b1, b2)) == Some([b0, b1, b2])
  {
    var x0, x1, x2 := b0 as int, b1 as int, b2 as int;
    var v0, v1, v2, v3 := x0 / 4, (x0 % 4) * 16 + x1 / 16, (x1 % 16) * 4 + x2 / 64, x2 % 64;
    SymbolInverse(v0);
    SymbolInverse(v1);
    SymbolInverse(v2);
    SymbolInverse(v3);
    assert v1 / 16 == x0 % 4 && v1 % 16 == x1 / 16;
    assert v2 / 4 == x1 % 16 && v2 % 4 == x2 / 64;
    assert v0 * 4 + v1 / 16 == x0;
    assert (v1 % 16) * 16 + v2 / 4 == x1;
    assert (v2 % 4) * 64 + v3 == x2;
  }

  lemma DecodeEncodeOne(b0: byte)
    ensures Decode(Encode([b0])) == Some([b0])
  {
    var x0 := b0 as int;
    SymbolInverse(x0 / 4);
    SymbolInverse((x0 % 4) * 16);
  }

  lemma DecodeEncodeTwo(b0: byte, b1: byte)
    ensures Decode(Encode([b0, b1])) == Some([b0, b1])
  {
    var x0, x1 := b0 as int, b1 as int;
    var v0, v1, v2 := x0 / 4, (x0 % 4) * 16 + x1 / 16, (x1 % 16) * 4;
    SymbolInverse(v0);
    SymbolInverse(v1);
    SymbolInverse(v2);
    assert v1 % 16 == x1 / 16 && v1 / 16 == x0 % 4;
    assert v0 * 4 + v1 / 16 == x0;
    assert (v1 % 16) * 16 + v2 / 4 == x1;
    var e := Encode([b0, b1]);
    assert e == [Symbol(v0), Symbol(v1), Symbol(v2), PAD];
    assert e[2] != PAD;
  }

  lemma DecodeEncodeThree(b0: byte, b1: byte, b2: byte)
    ensures Decode(Encode([b0, b1, b2])) == Some([b0, b1, b2])
  {
    var e := Encode([b0, b1, b2]);
    assert [b0, b1, b2][3..] == [];
    assert e == EncodeTriple(b0, b1, b2);
    DecodeEncodeTriple(b0, b1, b2);
    assert e[2] != PAD && e[3] != PAD;
  }

  /** A full group in front of a decodable rest decodes group by group. */
  lemma DecodeCons(head: seq<byte>, tail: seq<byte>, x: seq<byte>, y: seq<byte>)
    requires |head| == 4 && |tail| >= 4
    requires DecodeQuad(head) == Some(x) && Decode(tail) == Some(y)
    ensures Decode(head + tail) == Some(x + y)
  {
    var e := head + tail;
    assert e[..4] == head && e[4..] == tail;
  }

  /** The encoding of a short input decodes back to it. */
  lemma {:induction false} DecodeEncodeShort(s: seq<byte>)
    requires 1 <= |s| <= 3
    ensures Decode(Encode(s)) == Some(s)
  {
    if |s| == 1 {
      assert s == [s[0]];
      DecodeEncodeOne(s[0]);
    } else if |s| == 2 {
      assert s == [s[0], s[1]];
      DecodeEncodeTwo(s[0], s[1]);
    } else {
      assert s == [s[0], s[1], s[2]];
      DecodeEncodeThree(s[0], s[1], s[2]);
    }
  }

  /** A leading triple decodes in front of a rest that decodes. */
  lemma {:induction false} DecodeEncodeStep(s: seq<byte>)
    requires |s| > 3 && Decode(Encode(s[3..])) == Some(s[3..])
    ensures Decode(Encode(s)) == Some(s)
  {
    var head := EncodeTriple(s[0], s[1], s[2]);
    assert Encode(s) == head + Encode(s[3..]);
    DecodeEncodeTriple(s[0], s[1], s[2]);
    DecodeCons(head, Encode(s[3..]), [s[0], s[1], s[2]], s[3..]);
    assert [s[0], s[1], s[2]] + s[3..] == s;
  }

  /** Decoding undoes encoding. */
  lemma {:induction false} DecodeEncode(s: seq<byte>)
    ensures Decode(Encode(s)) == Some(s)
    decreases |s|
  {
    if 1 <= |s| <= 3 {
      DecodeEncodeShort(s);
    } else if |s| > 3 {
      DecodeEncode(s[3..]);
      DecodeEncodeStep(s);
    }
  }

  /** The shape of every encoder output: groups of four, alphabet symbols
      only, and `=` only as trailing padding of at most two characters. */
  ghost predicate WellPadded(r: seq<byte>)
  {
    && |r| % 4 == 0
    && (forall i :: 0 <= i < |r| ==> InAlphabet(r[i]) || (r[i] == PAD && |r| - 2 <= i))
    && (forall i, j :: 0 <= i < j < |r| && r[i] == PAD ==> r[j] == PAD)
  }

  /** Alphabet symbols and the pad are ASCII. */
  lemma SymbolsAreAscii(c: byte)
    requires InAlphabet(c) || c == PAD
    ensures c < 128
  {
  }

  /** Every symbol of an encoded triple is in the alphabet. */
  lemma TripleInAlphabet(b0: byte, b1: byte, b2: byte)
    ensures forall i :: 0 <= i < 4 ==> InAlphabet(EncodeTriple(b0, b1, b2)[i])
  {
    var x0, x1, x2 := b0 as int, b1 as int, b2 as int;
    SymbolInverse(x0 / 4);
    SymbolInverse((x0 % 4) * 16 + x1 / 16);
    SymbolInverse((x1 % 16) * 4 + x2 / 64);
    SymbolInverse(x2 % 64);
  }

  /** A group of four alphabet symbols in front of a well-padded sequence
      keeps it well padded. */
  lemma PrependGroup(head: seq<byte>, tail: seq<byte>)
    requires |head| == 4 && forall i :: 0 <= i < 4 ==> InAlphabet(head[i])
    requires WellPadded(tail)
    ensures WellPadded(head + tail)
  {
    var r := head + tail;
    assert forall i :: 4 <= i < |r| ==> r[i] == tail[i - 4];
    assert forall i :: 0 <= i < 4 ==> r[i] == head[i];
  }

  lemma {:induction false} EncodeWellPadded(s: seq<byte>)
    ensures WellPadded(Encode(s))
    decreases |s|
  {
    if |s| == 1 {
      SymbolInverse(s[0] as int / 4);
      SymbolInverse((s[0] as int % 4) * 16);
    } else if |s| == 2 {
      SymbolInverse(s[0] as int / 4);
      SymbolInverse((s[0] as int % 4) * 16 + s[1] as int / 16);
      SymbolInverse((s[1] as int % 16) * 4);
    } else if |s| > 2 {
      EncodeWellPadded(s[3..]);
      TripleInAlphabet(s[0], s[1], s[2]);
      PrependGroup(EncodeTriple(s[0], s[1], s[2]), Encode(s[3..]));
    }
  }
}
