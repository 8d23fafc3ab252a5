/**
 * The literal converter: each literal node of the SQL grammar becomes a scalar value
 * or one of two error categories, and a membership list is converted element by
 * element, stopping at the first element that fails.
 */
module Literals {
  import opened Bytes
  import opened Results
  import opened Errors
  import opened BitString
  import opened HexString

  /** A literal node as the SQL grammar delivers it; bit and hex digits come without their quotes. */
  datatype LiteralToken =
    | BitStringLit(digits: string)
    | HexStringLit(digits: string)
    | QuotedStringLit(text: string)
    | NationalStringLit(text: string)
    | NumberLit(number: int)
    | BooleanLit(truth: bool)
    | NullLit

  /** The runtime scalar values that literal conversion produces. */
  datatype ScalarValue =
    | Null
    | Boolean(truth: bool)
    | Integer(number: int)
    | Utf8Text(text: string)
    | Binary(bytes: seq<byte>)

  /** A literal that breaks its own lexical rule: a non-binary digit, or a hex string of odd length or with a non-hex character. */
  predicate Malformed(t: LiteralToken) {
    match t
    case BitStringLit(d) => exists i :: 0 <= i < |d| && !IsBitDigit(d[i])
    case HexStringLit(d) => |d| % 2 == 1 || exists i :: 0 <= i < |d| && !IsHexDigit(d[i])
    case _ => false
  }

  /**
   * Converts one literal. Malformed bit and hex strings are syntax violations; a
   * national string is an unsupported construct; nothing fails silently into a default.
   */
  function Convert(t: LiteralToken): (r: Result<ScalarValue, ConversionError>)
    ensures r.Err? <==> Malformed(t) || t.NationalStringLit?
    ensures r.Err? ==> (r.error.category == UnsupportedConstruct <==> t.NationalStringLit?)
    ensures t.NationalStringLit? ==> r == Err(ConversionError(UnsupportedConstruct, NationalStringMessage(t.text)))
    ensures t.BitStringLit? && r.Err? ==> r.error == ConversionError(SyntaxViolation, BitStringMessage)
    ensures t.HexStringLit? && |t.digits| % 2 == 1 ==> r == Err(ConversionError(SyntaxViolation, HexParityMessage))
    ensures t.HexStringLit? && |t.digits| % 2 == 0 && !AllHex(t.digits) ==> r == Err(ConversionError(SyntaxViolation, HexDigitMessage))
    ensures t.BitStringLit? && r.Ok? ==> r.value.Binary? && |r.value.bytes| == (|t.digits| + 7) / 8
    ensures t.HexStringLit? && r.Ok? ==> r.value.Binary? && |r.value.bytes| == |t.digits| / 2
    ensures t.BitStringLit? && r.Ok? ==> UnpackBits(r.value.bytes) == LeftPad(t.digits)
    ensures t.HexStringLit? && r.Ok? ==> ToHex(r.value.bytes) == Lower(t.digits)
    ensures t.QuotedStringLit? ==> r == Ok(Utf8Text(t.text))
    ensures t.NumberLit? ==> r == Ok(Integer(t.number))
    ensures t.BooleanLit? ==> r == Ok(Boolean(t.truth))
    ensures t.NullLit? ==> r == Ok(Null)
  {
    match t
    case BitStringLit(d) =>
      var digits :- ValidateBits(d);
      UnpackGroups(LeftPad(digits));
      Ok(Binary(PackBits(digits)))
    case HexStringLit(d) =>
      var digits :- ValidateHex(d);
      ToHexPackHex(digits);
      Ok(Binary(PackHex(digits)))
    case QuotedStringLit(s) => Ok(Utf8Text(s))
    case NationalStringLit(s) => Err(ConversionError(UnsupportedConstruct, NationalStringMessage(s)))
    case NumberLit(n) => Ok(Integer(n))
    case BooleanLit(b) => Ok(Boolean(b))
    case NullLit => Ok(Null)
  }

  /**
   * Converts a list of literals in order. The list succeeds exactly when every element
   * does; otherwise the error is that of the first failing element and no list is returned.
   */
  function ConvertList(ts: seq<LiteralToken>): (r: Result<seq<ScalarValue>, ConversionError>)
    ensures r.Ok? <==> forall i :: 0 <= i < |ts| ==> Convert(ts[i]).Ok?
    ensures r.Ok? ==> |r.value| == |ts| && forall i :: 0 <= i < |ts| ==> Convert(ts[i]) == Ok(r.value[i])
    ensures r.Err? ==> FirstFailure(ts, r.error)
  {
    if ts == [] then Ok([])
    else
      match Convert(ts[0])
      case Err(e) =>
        assert FirstFailureAt(ts, e, 0);
        Err(e)
      case Ok(head) =>
        match ConvertList(ts[1..])
        case Err(e) =>
          FirstFailureShift(ts, e);
          Err(e)
        case Ok(tail) =>
          ConsConverted(ts, head, tail);
          Ok([head] + tail)
  }

  /** Element `i` is the first of `ts` that fails, and it fails with `e`. */
  predicate FirstFailureAt(ts: seq<LiteralToken>, e: ConversionError, i: nat) {
    && i < |ts|
    && Convert(ts[i]) == Err(e)
    && forall j :: 0 <= j < i ==> Convert(ts[j]).Ok?
  }

  predicate FirstFailure(ts: seq<LiteralToken>, e: ConversionError) {
    exists i :: 0 <= i < |ts| && FirstFailureAt(ts, e, i)
  }

  lemma FirstFailureShift(ts: seq<LiteralToken>, e: ConversionError)
    requires |ts| > 0 && Convert(ts[0]).Ok? && FirstFailure(ts[1..], e)
    ensures FirstFailure(ts, e)
  {
    var i :| 0 <= i < |ts[1..]| && FirstFailureAt(ts[1..], e, i);
    forall j | 0 <= j < i + 1 ensures Convert(ts[j]).Ok? {
      if j > 0 {
        assert ts[j] == ts[1..][j - 1];
      }
    }
    assert FirstFailureAt(ts, e, i + 1);
  }

  lemma ConsConverted(ts: seq<LiteralToken>, head: ScalarValue, tail: seq<ScalarValue>)
    requires |ts| > 0 && Convert(ts[0]) == Ok(head)
    requires |tail| == |ts| - 1 && forall i :: 0 <= i < |ts| - 1 ==> Convert(ts[1..][i]) == Ok(tail[i])
    ensures forall i :: 0 <= i < |ts| ==> Convert(ts[i]) == Ok(([head] + tail)[i])
  {
    forall i | 0 < i < |ts| ensures Convert(ts[i]) == Ok(([head] + tail)[i]) {
      assert ts[i] == ts[1..][i - 1];
    }
  }

  /** The single-value path and a one-element list agree. */
  lemma ConvertSingleton(t: LiteralToken)
    ensures Convert(t).Ok? ==> ConvertList([t]) == Ok([Convert(t).value])
    ensures Convert(t).Err? ==> ConvertList([t]) == Err(Convert(t).error)
  {
    assert [t][1..] == [];
    assert ConvertList([]) == Ok([]);
    if Convert(t).Ok? {
      assert [Convert(t).value] + [] == [Convert(t).value];
    }
  }

  /** A two-element list converts to the two converted elements, in order. */
  lemma ConvertPair(a: LiteralToken, b: LiteralToken, x: ScalarValue, y: ScalarValue)
    requires Convert(a) == Ok(x) && Convert(b) == Ok(y)
    ensures ConvertList([a, b]) == Ok([x, y])
  {
    var r := ConvertList([a, b]);
    assert [a, b][0] == a && [a, b][1] == b;
    assert r.Ok? && |r.value| == 2;
    assert r.value == [x, y];
  }

  /**
   * The list of `a + b` is the list of `a` followed by that of `b`; once `a` fails,
   * nothing in `b` is looked at.
   */
  lemma {:induction false} ConvertListAppend(a: seq<LiteralToken>, b: seq<LiteralToken>)
    ensures ConvertList(a + b) ==
      match ConvertList(a)
      case Err(e) => Err(e)
      case Ok(va) =>
        match ConvertList(b)
        case Err(e) => Err(e)
        case Ok(vb) => Ok(va + vb)
  {
    if a == [] {
      assert a + b == b;
      assert ConvertList(a) == Ok([]);
      if ConvertList(b).Ok? {
        assert [] + ConvertList(b).value == ConvertList(b).value;
      }
    } else {
      var ab := a + b;
      assert ab[0] == a[0];
      assert ab[1..] == a[1..] + b;
      ConvertListAppend(a[1..], b);
      match Convert(a[0])
      case Err(e) =>
      case Ok(h) =>
        match ConvertList(a[1..])
        case Err(e) =>
        case Ok(ta) =>
          match ConvertList(b)
          case Err(e) =>
          case Ok(vb) =>
            assert [h] + (ta + vb) == ([h] + ta) + vb;
    }
  }

  /** Letter case in a hex literal never changes the outcome, error or value. */
  lemma ConvertHexCaseInsensitive(d: string)
    ensures Convert(HexStringLit(Upper(d))) == Convert(HexStringLit(d))
    ensures Convert(HexStringLit(Lower(d))) == Convert(HexStringLit(d))
  {
    ValidateHexCaseInsensitive(d);
    if ValidateHex(d).Ok? {
      PackHexCaseInsensitive(d);
    }
  }

  /** A bit literal whose digits are re-expanded from its bytes denotes the same bytes. */
  lemma ConvertBitsOfBytes(bs: seq<byte>)
    ensures Convert(BitStringLit(UnpackBits(bs))) == Ok(Binary(bs))
  {
    PackUnpackBits(bs);
  }

  /** A hex literal written from some bytes converts back to those bytes. */
  lemma ConvertHexOfBytes(bs: seq<byte>)
    ensures Convert(HexStringLit(ToHex(bs))) == Ok(Binary(bs))
  {
    PackHexToHex(bs);
  }

  /** A bit literal whose padded digits are the bits of `bs` converts to exactly `bs`. */
  lemma ConvertPaddedBits(d: string, bs: seq<byte>)
    requires AllBits(d) && LeftPad(d) == UnpackBits(bs)
    ensures Convert(BitStringLit(d)) == Ok(Binary(bs))
  {
    PackBitsOfUnpacked(d, bs);
  }

  /** A hex literal whose lower-case text is the hex text of `bs` converts to exactly `bs`. */
  lemma ConvertHexText(h: string, bs: seq<byte>)
    requires AllHex(h) && |h| % 2 == 0 && Lower(h) == ToHex(bs)
    ensures Convert(HexStringLit(h)) == Ok(Binary(bs))
  {
    PackHexOfText(h, bs);
  }
}
