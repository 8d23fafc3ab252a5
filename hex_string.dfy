/**
 * Hex-string literals `x'...'`: validation of the digit string and packing of each
 * pair of hex digits, left to right, into one byte. Letter case does not matter.
 */
module HexString {
  import opened Bytes
  import opened Results
  import opened Errors

  predicate IsHexDigit(c: char) {
    '0' <= c <= '9' || 'a' <= c <= 'f' || 'A' <= c <= 'F'
  }

  predicate AllHex(s: string) {
    forall i :: 0 <= i < |s| ==> IsHexDigit(s[i])
  }

  function HexValue(c: char): (v: nat)
    requires IsHexDigit(c)
    ensures v < 16
  {
    if '0' <= c <= '9' then c as int - '0' as int
    else if 'a' <= c <= 'f' then c as int - 'a' as int + 10
    else c as int - 'A' as int + 10
  }

  /**
   * Accepts exactly the even-length strings of hex digits. The digit count is
   * checked first: an odd-length string is rejected for its parity whatever its characters.
   */
  function ValidateHex(raw: string): (r: Result<string, ConversionError>)
    ensures |raw| % 2 == 1 ==> r == Err(ConversionError(SyntaxViolation, HexParityMessage))
    ensures |raw| % 2 == 0 && !AllHex(raw) ==> r == Err(ConversionError(SyntaxViolation, HexDigitMessage))
    ensures r.Ok? <==> |raw| % 2 == 0 && AllHex(raw)
    ensures r.Ok? ==> r.value == raw
    ensures r.Err? ==> r.error.category == SyntaxViolation
  {
    if |raw| % 2 != 0 then Err(ConversionError(SyntaxViolation, HexParityMessage))
    else if !AllHex(raw) then Err(ConversionError(SyntaxViolation, HexDigitMessage))
    else Ok(raw)
  }

  /** The byte that digits `2i` and `2i + 1` of `h` stand for, high digit first. */
  function PairValue(h: string, i: nat): nat
    requires AllHex(h) && 2 * i + 1 < |h|
  {
    16 * HexValue(h[2 * i]) + HexValue(h[2 * i + 1])
  }

  /** Byte `i` of the result is the value of digit pair `i`. */
  function PackHex(h: string): (r: seq<byte>)
    requires AllHex(h) && |h| % 2 == 0
    ensures |r| == |h| / 2
    ensures forall i :: 0 <= i < |r| ==> r[i] == PairValue(h, i)
    decreases |h|
  {
    if |h| == 0 then []
    else
      var rest := PackHex(h[2..]);
      PairValueTail(h);
      [16 * HexValue(h[0]) + HexValue(h[1])] + rest
  }

  lemma PairValueTail(h: string)
    requires AllHex(h) && |h| % 2 == 0 && |h| >= 2
    ensures forall i :: 0 <= i < |h| / 2 - 1 ==> PairValue(h[2..], i) == PairValue(h, i + 1)
  {
    forall i | 0 <= i < |h| / 2 - 1 ensures PairValue(h[2..], i) == PairValue(h, i + 1) {
      assert h[2..][2 * i] == h[2 * (i + 1)];
      assert h[2..][2 * i + 1] == h[2 * (i + 1) + 1];
    }
  }

  function UpperChar(c: char): char {
    if 'a' <= c <= 'z' then (c as int - 32) as char else c
  }

  function LowerChar(c: char): char {
    if 'A' <= c <= 'Z' then (c as int + 32) as char else c
  }

  function Upper(s: string): string {
    seq(|s|, i requires 0 <= i < |s| => UpperChar(s[i]))
  }

  function Lower(s: string): string {
    seq(|s|, i requires 0 <= i < |s| => LowerChar(s[i]))
  }

  /** The lower-case hex digit of a value below 16. */
  function HexDigitChar(n: nat): (c: char)
    requires n < 16
    ensures IsHexDigit(c) && HexValue(c) == n
  {
    if n < 10 then ('0' as int + n) as char else ('a' as int + n - 10) as char
  }

  /** The lower-case hex text of a byte sequence, two digits per byte. */
  function ToHex(bs: seq<byte>): (t: string)
    ensures |t| == 2 * |bs| && AllHex(t)
  {
    if bs == [] then []
    else [HexDigitChar(bs[0] / 16), HexDigitChar(bs[0] % 16)] + ToHex(bs[1..])
  }

  lemma HexValueCase(c: char)
    requires IsHexDigit(c)
    ensures IsHexDigit(UpperChar(c)) && HexValue(UpperChar(c)) == HexValue(c)
    ensures IsHexDigit(LowerChar(c)) && HexValue(LowerChar(c)) == HexValue(c)
    ensures HexDigitChar(HexValue(c)) == LowerChar(c)
  {
  }

  /** Two digit strings whose digits have the same values pack to the same bytes. */
  lemma {:induction false} SameDigitValues(h: string, m: string)
    requires AllHex(h) && |h| % 2 == 0 && |m| == |h|
    requires forall i :: 0 <= i < |h| ==> IsHexDigit(m[i]) && HexValue(m[i]) == HexValue(h[i])
    ensures AllHex(m) && PackHex(m) == PackHex(h)
    decreases |h|
  {
    if |h| > 0 {
      SameDigitValues(h[2..], m[2..]);
    }
  }

  /** Upper- or lower-casing a valid hex string changes neither its validity nor its bytes. */
  lemma PackHexCaseInsensitive(h: string)
    requires AllHex(h) && |h| % 2 == 0
    ensures AllHex(Upper(h)) && PackHex(Upper(h)) == PackHex(h)
    ensures AllHex(Lower(h)) && PackHex(Lower(h)) == PackHex(h)
  {
    forall i | 0 <= i < |h|
      ensures IsHexDigit(Upper(h)[i]) && HexValue(Upper(h)[i]) == HexValue(h[i])
      ensures IsHexDigit(Lower(h)[i]) && HexValue(Lower(h)[i]) == HexValue(h[i])
    {
      HexValueCase(h[i]);
    }
    SameDigitValues(h, Upper(h));
    SameDigitValues(h, Lower(h));
  }

  /** Validation gives the same verdict, and the same error, whatever the letter case. */
  lemma ValidateHexCaseInsensitive(raw: string)
    ensures ValidateHex(Upper(raw)).Ok? == ValidateHex(raw).Ok?
    ensures ValidateHex(Lower(raw)).Ok? == ValidateHex(raw).Ok?
    ensures ValidateHex(raw).Err? ==> ValidateHex(Upper(raw)) == ValidateHex(raw) == ValidateHex(Lower(raw))
  {
    forall i | 0 <= i < |raw|
      ensures IsHexDigit(Upper(raw)[i]) == IsHexDigit(raw[i]) == IsHexDigit(Lower(raw)[i])
    {
      var c := raw[i];
      if IsHexDigit(c) { HexValueCase(c); }
    }
    if !AllHex(raw) {
      var i :| 0 <= i < |raw| && !IsHexDigit(raw[i]);
      assert !IsHexDigit(Upper(raw)[i]) && !IsHexDigit(Lower(raw)[i]);
    }
  }

  /** Packing the hex text of some bytes gives those bytes back. */
  lemma {:induction false} PackHexToHex(bs: seq<byte>)
    ensures PackHex(ToHex(bs)) == bs
  {
    if bs != [] {
      var t := ToHex(bs);
      assert t[2..] == ToHex(bs[1..]);
      PackHexToHex(bs[1..]);
      assert 16 * HexValue(t[0]) + HexValue(t[1]) == bs[0];
    }
  }

  lemma PairDigits(hi: char, lo: char)
    requires IsHexDigit(hi) && IsHexDigit(lo)
    ensures var v := 16 * HexValue(hi) + HexValue(lo);
      HexDigitChar(v / 16) == LowerChar(hi) && HexDigitChar(v % 16) == LowerChar(lo)
  {
    HexValueCase(hi);
    HexValueCase(lo);
  }

  lemma LowerCons(h: string)
    requires |h| >= 2
    ensures Lower(h) == [LowerChar(h[0]), LowerChar(h[1])] + Lower(h[2..])
  {
  }

  /** The hex text of the packed bytes is the original digit string in lower case. */
  lemma {:induction false} ToHexPackHex(h: string)
    requires AllHex(h) && |h| % 2 == 0
    ensures ToHex(PackHex(h)) == Lower(h)
    decreases |h|
  {
    if |h| > 0 {
      var p, rest := PackHex(h), PackHex(h[2..]);
      assert p == [16 * HexValue(h[0]) + HexValue(h[1])] + rest;
      PairDigits(h[0], h[1]);
      ToHexPackHex(h[2..]);
      LowerCons(h);
    }
  }

  /** Bytes whose lower-case hex text is the digit string, in lower case, are the packed bytes. */
  lemma PackHexOfText(h: string, bs: seq<byte>)
    requires AllHex(h) && |h| % 2 == 0 && Lower(h) == ToHex(bs)
    ensures PackHex(h) == bs
  {
    PackHexCaseInsensitive(h);
    PackHexToHex(bs);
  }
}
