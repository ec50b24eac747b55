/** `Utils.is_base64` (src/maven_artifact/utils.py): a string or byte string
    is accepted when decoding it and encoding the result gives it back. */
module Utils {
  import opened Wrappers
  import opened Bytes
  import opened Base64

  /** The Python argument, by the cases the function distinguishes. */
  datatype Value = StrValue(s: string) | BytesValue(b: seq<byte>) | OtherValue

  /** `sb_bytes`: the bytes the test runs on, `None` when computing them
      raises (a non-ASCII `str`, or an argument that is neither `str` nor
      `bytes`). */
  function Payload(v: Value): Option<seq<byte>>
  {
    match v
    case StrValue(s) => AsciiEncode(s)
    case BytesValue(b) => Some(b)
    case OtherValue => None
  }

  /** `b64encode(b64decode(b)) == b`, where an undecodable `b` is `False`. */
  predicate ReEncodes(b: seq<byte>)
  {
    match Decode(b)
    case None => false
    case Some(x) => Encode(x) == b
  }

  function IsBase64(v: Value): (r: bool)
    ensures v.OtherValue? ==> !r
    ensures v.StrValue? && (exists i :: 0 <= i < |v.s| && !IsAscii(v.s[i])) ==> !r
  {
    match Payload(v)
    case None => false
    case Some(b) => ReEncodes(b)
  }

  /** The test accepts exactly the outputs of the encoder. */
  lemma ReEncodesIffEncoded(b: seq<byte>)
    ensures ReEncodes(b) <==> exists x :: Encode(x) == b
  {
    if exists x :: Encode(x) == b {
      var x :| Encode(x) == b;
      DecodeEncode(x);
    }
  }

  /** `is_base64(v)` holds iff `v` names bytes that `b64encode` can produce. */
  lemma IsBase64IffEncoded(v: Value)
    ensures IsBase64(v) <==> Payload(v).Some? && exists x :: Encode(x) == Payload(v).value
  {
    if Payload(v).Some? {
      ReEncodesIffEncoded(Payload(v).value);
    }
  }

  /** Every encoding is accepted, as bytes and as text; so is the empty string. */
  lemma EncodedIsBase64(x: seq<byte>)
    ensures IsBase64(BytesValue(Encode(x)))
    ensures IsBase64(StrValue(AsciiText(Encode(x))))
  {
    var e := Encode(x);
    DecodeEncode(x);
    EncodeWellPadded(x);
    forall i | 0 <= i < |e| ensures e[i] < 128 {
      SymbolsAreAscii(e[i]);
    }
    AsciiRoundTrip(e);
  }

  /** "Zh==" decodes to "f" like "Zg==" but sets unused bits, so it does
      not re-encode to itself and is rejected. */
  lemma RejectsNonCanonical()
    ensures !ReEncodes([90, 104, 61, 61])
    ensures ReEncodes([90, 103, 61, 61])
  {
    var b: seq<byte> := [90, 104, 61, 61];
    assert Decode(b) == Some([102]);
    Vectors();
    DecodeEncode([102]);
  }

  /** An accepted input that ends in padding has zero unused bits in its
      last group, so no second spelling of the same bytes is accepted. */
  lemma AcceptedHasZeroPadBits(b: seq<byte>)
    requires ReEncodes(b)
    ensures |b| >= 4 && b[|b| - 1] == PAD && b[|b| - 2] == PAD ==>
      SymbolValue(b[|b| - 3]).Some? && SymbolValue(b[|b| - 3]).value % 16 == 0
    ensures |b| >= 4 && b[|b| - 1] == PAD && b[|b| - 2] != PAD ==>
      SymbolValue(b[|b| - 2]).Some? && SymbolValue(b[|b| - 2]).value % 4 == 0
  {
    ReEncodesIffEncoded(b);
    var x :| Encode(x) == b;
    EncodeFinalGroup(x);
    assert FinalGroup(b, |x|);
  }

  lemma EmptyIsBase64()
    ensures IsBase64(StrValue("")) && IsBase64(BytesValue([]))
  {
    EncodedIsBase64([]);
  }

  /** What acceptance implies about the input: a multiple of four long, only
      alphabet symbols, and `=` only as at most two trailing pad characters. */
  lemma AcceptedIsWellPadded(v: Value)
    requires IsBase64(v)
    ensures Payload(v).Some? && WellPadded(Payload(v).value)
  {
    IsBase64IffEncoded(v);
    var x :| Encode(x) == Payload(v).value;
    EncodeWellPadded(x);
  }
}
