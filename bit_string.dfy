/**
 * Bit-string literals `b'...'`: validation of the digit string and packing of the
 * digits into bytes, most-significant bit first, zero-padded at the front to whole bytes.
 */
module BitString {
  import opened Bytes
  import opened Results
  import opened Errors

  predicate IsBitDigit(c: char) {
    c == '0' || c == '1'
  }

  predicate AllBits(s: string) {
    forall i :: 0 <= i < |s| ==> IsBitDigit(s[i])
  }

  /** Accepts exactly the digit strings made of 0s and 1s (the empty one included). */
  function ValidateBits(raw: string): (r: Result<string, ConversionError>)
    ensures r.Err? <==> exists i :: 0 <= i < |raw| && raw[i] != '0' && raw[i] != '1'
    ensures r.Ok? ==> r.value == raw
    ensures r.Err? ==> r.error == ConversionError(SyntaxViolation, BitStringMessage)
  {
    if AllBits(raw) then Ok(raw) else Err(ConversionError(SyntaxViolation, BitStringMessage))
  }

  /** Number of zero bits put in front of `n` digits to reach a multiple of 8. */
  function PadWidth(n: nat): (p: nat)
    ensures p < 8 && (n + p) % 8 == 0
  {
    (8 - n % 8) % 8
  }

  function Zeros(k: nat): (z: string)
    ensures |z| == k && forall i :: 0 <= i < k ==> z[i] == '0'
  {
    seq(k, _ => '0')
  }

  function LeftPad(d: string): string {
    Zeros(PadWidth(|d|)) + d
  }

  function Digit(c: char): nat {
    if c == '1' then 1 else 0
  }

  /** The non-negative integer that a digit string denotes, most-significant bit first. */
  function BitsValue(s: string): (v: nat)
    ensures v < Pow2(|s|)
    decreases |s|
  {
    if |s| == 0 then 0 else 2 * BitsValue(s[..|s| - 1]) + Digit(s[|s| - 1])
  }

  /** Splits a whole number of 8-bit groups into bytes, first group first. */
  function Groups(s: string): (r: seq<byte>)
    requires |s| % 8 == 0
    ensures |r| == |s| / 8
    decreases |s|
  {
    if |s| == 0 then []
    else
      assert Pow2(8) == 256;
      [BitsValue(s[..8])] + Groups(s[8..])
  }

  /** The bytes of a validated bit string: one byte per started group of 8 digits. */
  function PackBits(d: string): (r: seq<byte>)
    requires AllBits(d)
    ensures |r| == (|d| + 7) / 8
  {
    Groups(LeftPad(d))
  }

  /** The `width` low bits of `n`, most-significant first. */
  function NatBits(n: nat, width: nat): (s: string)
    ensures |s| == width && AllBits(s)
  {
    if width == 0 then []
    else NatBits(n / 2, width - 1) + [if n % 2 == 1 then '1' else '0']
  }

  /** Re-expands bytes to digits, eight per byte. */
  function UnpackBits(bs: seq<byte>): (s: string)
    ensures |s| == 8 * |bs| && AllBits(s)
  {
    if bs == [] then [] else NatBits(bs[0], 8) + UnpackBits(bs[1..])
  }

  /** The integer that a byte sequence denotes, most-significant byte first. */
  function BigEndian(bs: seq<byte>): nat {
    if bs == [] then 0 else bs[0] * Pow2(8 * (|bs| - 1)) + BigEndian(bs[1..])
  }

  lemma {:induction false} NatBitsValue(n: nat, width: nat)
    requires n < Pow2(width)
    ensures BitsValue(NatBits(n, width)) == n
  {
    if width > 0 {
      var init := NatBits(n / 2, width - 1);
      var c := if n % 2 == 1 then '1' else '0';
      assert NatBits(n, width) == init + [c];
      BitsValueSnoc(init, c);
      HalfBelow(n, Pow2(width - 1));
      NatBitsValue(n / 2, width - 1);
      assert Digit(c) == n % 2;
    }
  }

  lemma HalfBelow(n: nat, p: nat)
    requires n < 2 * p
    ensures n / 2 < p
  {
  }

  lemma {:induction false} ValueNatBits(s: string)
    requires AllBits(s)
    ensures NatBits(BitsValue(s), |s|) == s
    decreases |s|
  {
    if |s| > 0 {
      var init := s[..|s| - 1];
      ValueNatBits(init);
      assert s == init + [s[|s| - 1]];
    }
  }

  lemma {:induction false} ZerosValue(k: nat)
    ensures BitsValue(Zeros(k)) == 0
  {
    if k > 0 {
      assert Zeros(k)[..k - 1] == Zeros(k - 1);
      ZerosValue(k - 1);
    }
  }

  lemma {:induction false} BitsValueAppend(a: string, b: string)
    ensures BitsValue(a + b) == BitsValue(a) * Pow2(|b|) + BitsValue(b)
    decreases |b|
  {
    if |b| == 0 {
      assert a + b == a;
    } else {
      var b' := b[..|b| - 1];
      var last := b[|b| - 1];
      assert a + b == (a + b') + [last];
      BitsValueSnoc(a + b', last);
      BitsValueSnoc(b', last);
      assert b == b' + [last];
      BitsValueAppend(a, b');
      DoubleShift(BitsValue(a), Pow2(|b'|), BitsValue(b'), Digit(last));
    }
  }

  lemma BitsValueSnoc(s: string, c: char)
    ensures BitsValue(s + [c]) == 2 * BitsValue(s) + Digit(c)
  {
    assert (s + [c])[..|s|] == s;
  }

  lemma DoubleShift(x: int, y: int, z: int, d: int)
    ensures 2 * (x * y + z) + d == x * (2 * y) + (2 * z + d)
  {
  }

  lemma {:induction false} UnpackGroups(s: string)
    requires |s| % 8 == 0 && AllBits(s)
    ensures UnpackBits(Groups(s)) == s
    decreases |s|
  {
    if |s| > 0 {
      var g := Groups(s);
      assert g[0] == BitsValue(s[..8]) && g[1..] == Groups(s[8..]);
      ValueNatBits(s[..8]);
      UnpackGroups(s[8..]);
      assert s == s[..8] + s[8..];
    }
  }

  lemma {:induction false} GroupsUnpack(bs: seq<byte>)
    ensures Groups(UnpackBits(bs)) == bs
  {
    if bs != [] {
      var u := UnpackBits(bs);
      assert u[..8] == NatBits(bs[0], 8);
      assert u[8..] == UnpackBits(bs[1..]);
      assert Pow2(8) == 256;
      NatBitsValue(bs[0], 8);
      GroupsUnpack(bs[1..]);
    }
  }

  lemma {:induction false} GroupsValue(s: string)
    requires |s| % 8 == 0
    ensures BigEndian(Groups(s)) == BitsValue(s)
    decreases |s|
  {
    if |s| > 0 {
      var g := Groups(s);
      assert g[0] == BitsValue(s[..8]) && g[1..] == Groups(s[8..]);
      assert 8 * (|g| - 1) == |s[8..]|;
      GroupsValue(s[8..]);
      assert s == s[..8] + s[8..];
      BitsValueAppend(s[..8], s[8..]);
    }
  }

  /** Unpacking the packed bytes gives the digits behind fewer than 8 leading zero bits. */
  lemma PackBitsRoundTrip(d: string)
    requires AllBits(d)
    ensures var u := UnpackBits(PackBits(d));
      && |u| == |d| + PadWidth(|d|)
      && PadWidth(|d|) < 8
      && (forall i :: 0 <= i < PadWidth(|d|) ==> u[i] == '0')
      && u[PadWidth(|d|)..] == d
  {
    UnpackGroups(LeftPad(d));
  }

  /** Packing the digits of whole bytes gives those bytes back, with no padding added. */
  lemma PackUnpackBits(bs: seq<byte>)
    ensures PackBits(UnpackBits(bs)) == bs
  {
    var u := UnpackBits(bs);
    WholeBytesNeedNoPad(|bs|);
    assert Zeros(0) + u == u;
    GroupsUnpack(bs);
  }

  /** The packed bytes denote the same integer as the digits. */
  lemma PackBitsValue(d: string)
    requires AllBits(d)
    ensures BigEndian(PackBits(d)) == BitsValue(d)
  {
    GroupsValue(LeftPad(d));
    BitsValueAppend(Zeros(PadWidth(|d|)), d);
    ZerosValue(PadWidth(|d|));
  }

  /** Leading zeros that do not start a new byte do not change the packed bytes. */
  lemma LeadingZerosWithinByte(k: nat, d: string)
    requires AllBits(d) && k <= PadWidth(|d|)
    ensures AllBits(Zeros(k) + d)
    ensures PackBits(Zeros(k) + d) == PackBits(d)
  {
    var p := PadWidth(|d|);
    PadWidthShrinks(|d|, k);
    ZerosSplit(p - k, k);
    assert LeftPad(Zeros(k) + d) == Zeros(p - k) + (Zeros(k) + d) == Zeros(p) + d;
  }

  lemma PadWidthShrinks(n: nat, k: nat)
    requires k <= PadWidth(n)
    ensures PadWidth(n + k) == PadWidth(n) - k
  {
    var q, r := n / 8, n % 8;
    assert n == 8 * q + r;
    if r == 0 {
      assert k == 0;
    } else {
      assert n + k == 8 * q + (r + k) && r + k <= 8;
      if r + k == 8 {
        assert n + k == 8 * (q + 1);
      } else {
        assert (n + k) % 8 == r + k;
      }
    }
  }

  lemma WholeBytesNeedNoPad(m: nat)
    ensures PadWidth(8 * m) == 0
  {
    assert (8 * m) % 8 == 0;
  }

  lemma ZerosSplit(a: nat, b: nat)
    ensures Zeros(a) + Zeros(b) == Zeros(a + b)
  {
  }

  /** Bytes whose digits are the padded bit string are the packed bytes: packing is determined by its digits. */
  lemma PackBitsOfUnpacked(d: string, bs: seq<byte>)
    requires AllBits(d) && LeftPad(d) == UnpackBits(bs)
    ensures PackBits(d) == bs
  {
    GroupsUnpack(bs);
  }
}
