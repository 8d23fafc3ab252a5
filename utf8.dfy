/**
 * The UTF-8 bytes of text. A quoted-string literal compared with a binary column is
 * coerced to exactly these bytes.
 */
module Utf8 {
  import opened Bytes
  import opened Results

  /** The UTF-8 encoding of one Unicode scalar value. */
  function EncodeChar(c: char): (r: seq<byte>)
    ensures 1 <= |r| <= 4
  {
    var n := c as int;
    if n < 0x80 then [n]
    else if n < 0x800 then [0xC0 + n / 0x40, 0x80 + n % 0x40]
    else if n < 0x1_0000 then [0xE0 + n / 0x1000, 0x80 + n / 0x40 % 0x40, 0x80 + n % 0x40]
    else [0xF0 + n / 0x4_0000, 0x80 + n / 0x1000 % 0x40, 0x80 + n / 0x40 % 0x40, 0x80 + n % 0x40]
  }

  function Encode(s: string): (r: seq<byte>)
    ensures |r| >= |s|
  {
    if s == [] then [] else EncodeChar(s[0]) + Encode(s[1..])
  }

  /** Length of the sequence a leading byte starts; 0 for a byte that cannot lead one. */
  function SequenceLength(b: byte): nat {
    if b < 0x80 then 1
    else if 0xC0 <= b < 0xE0 then 2
    else if 0xE0 <= b < 0xF0 then 3
    else if 0xF0 <= b < 0xF8 then 4
    else 0
  }

  predicate IsContinuation(b: byte) {
    0x80 <= b < 0xC0
  }

  predicate IsScalar(n: int) {
    0 <= n < 0xD800 || 0xE000 <= n < 0x11_0000
  }

  /** The scalar value that one encoded sequence carries in its payload bits. */
  function DecodeScalar(bs: seq<byte>): int
    requires 1 <= |bs| <= 4
  {
    var b0: int := bs[0];
    if |bs| == 1 then b0
    else if |bs| == 2 then (b0 - 0xC0) * 0x40 + Payload(bs[1])
    else if |bs| == 3 then (b0 - 0xE0) * 0x1000 + Payload(bs[1]) * 0x40 + Payload(bs[2])
    else (b0 - 0xF0) * 0x4_0000 + Payload(bs[1]) * 0x1000 + Payload(bs[2]) * 0x40 + Payload(bs[3])
  }

  /** The six payload bits of a continuation byte. */
  function Payload(b: byte): int {
    b as int - 0x80
  }

  /** The smallest scalar value that needs a sequence of `k` bytes; anything below is an overlong form. */
  function MinScalar(k: nat): int {
    if k == 2 then 0x80 else if k == 3 then 0x800 else if k == 4 then 0x1_0000 else 0
  }

  /**
   * One encoded character: the leading byte announces the length, the others are continuation
   * bytes, the payload is a scalar value, and no shorter sequence could have carried it.
   */
  predicate WellFormedSequence(q: seq<byte>) {
    && 1 <= |q| <= 4
    && SequenceLength(q[0]) == |q|
    && (forall i :: 1 <= i < |q| ==> IsContinuation(q[i]))
    && IsScalar(DecodeScalar(q))
    && DecodeScalar(q) >= MinScalar(|q|)
  }

  /** Reads bytes back as text, one sequence at a time as its leading byte announces; `None` on any ill-formed sequence. */
  function Decode(bs: seq<byte>): Option<string>
    decreases |bs|
  {
    if bs == [] then Some([])
    else
      var k := SequenceLength(bs[0]);
      if k == 0 || k > |bs| || !WellFormedSequence(bs[..k]) then None
      else
        match Decode(bs[k..])
        case None => None
        case Some(rest) => Some([DecodeScalar(bs[..k]) as char] + rest)
  }

  /** The encoding of a character is one well-formed sequence, and its payload is that character. */
  lemma EncodeCharShape(c: char)
    ensures var r := EncodeChar(c);
      && SequenceLength(r[0]) == |r|
      && (forall i :: 1 <= i < |r| ==> IsContinuation(r[i]))
      && DecodeScalar(r) == c as int
      && WellFormedSequence(r)
  {
    var n := c as int;
    if n < 0x80 {
    } else if n < 0x800 {
      TwoByteShape(n);
    } else if n < 0x1_0000 {
      ThreeByteShape(n);
    } else {
      FourByteShape(n);
    }
  }

  lemma TwoByteShape(n: int)
    requires 0x80 <= n < 0x800
    ensures n == (n / 0x40) * 0x40 + n % 0x40 && 2 <= n / 0x40 < 0x20
  {
  }

  lemma ThreeByteShape(n: int)
    requires 0x800 <= n < 0x1_0000
    ensures n == (n / 0x1000) * 0x1000 + (n / 0x40 % 0x40) * 0x40 + n % 0x40 && n / 0x1000 < 0x10
  {
    var hi, mid, lo := n / 0x1000, n / 0x40 % 0x40, n % 0x40;
    assert n / 0x40 == hi * 0x40 + mid;
    assert n == (hi * 0x40 + mid) * 0x40 + lo;
  }

  lemma FourByteShape(n: int)
    requires 0x1_0000 <= n < 0x11_0000
    ensures n == (n / 0x4_0000) * 0x4_0000 + (n / 0x1000 % 0x40) * 0x1000 + (n / 0x40 % 0x40) * 0x40 + n % 0x40
    ensures n / 0x4_0000 < 5
  {
    var top, hi, mid, lo := n / 0x4_0000, n / 0x1000 % 0x40, n / 0x40 % 0x40, n % 0x40;
    assert n / 0x1000 == top * 0x40 + hi;
    assert n / 0x40 == n / 0x1000 * 0x40 + mid;
    assert n == (top * 0x40 + hi) * 0x1000 + mid * 0x40 + lo;
  }

  /** Decoding the encoding of any text gives that text back. */
  lemma {:induction false} DecodeEncode(s: string)
    ensures Decode(Encode(s)) == Some(s)
  {
    if s != [] {
      var e, r := EncodeChar(s[0]), Encode(s[1..]);
      EncodeCharShape(s[0]);
      assert Encode(s) == e + r;
      assert IsScalar(s[0] as int);
      assert WellFormedSequence(e);
      assert (e + r)[0] == e[0];
      assert (e + r)[..|e|] == e;
      assert (e + r)[|e|..] == r;
      DecodeEncode(s[1..]);
      assert DecodeScalar(e) as char == s[0];
      assert s == [s[0]] + s[1..];
    }
  }

  /** ASCII text encodes to its code points, one byte per character. */
  lemma {:induction false} EncodeAscii(s: string)
    requires forall i :: 0 <= i < |s| ==> (s[i] as int) < 0x80
    ensures |Encode(s)| == |s|
    ensures forall i :: 0 <= i < |s| ==> Encode(s)[i] == s[i] as int
  {
    if s != [] {
      EncodeAscii(s[1..]);
    }
  }

  lemma Split64(n: int, q: int, r: int)
    requires 0 <= r < 0x40 && n == q * 0x40 + r
    ensures n / 0x40 == q && n % 0x40 == r
  {
  }

  lemma Split4096(n: int, q: int, r: int)
    requires 0 <= r < 0x1000 && n == q * 0x1000 + r
    ensures n / 0x1000 == q && n % 0x1000 == r
  {
  }

  lemma Split262144(n: int, q: int, r: int)
    requires 0 <= r < 0x4_0000 && n == q * 0x4_0000 + r
    ensures n / 0x4_0000 == q && n % 0x4_0000 == r
  {
  }

  /** A well-formed sequence is the encoding of the character it carries: there is one way to write each character. */
  lemma SequenceIsEncoding(q: seq<byte>)
    requires WellFormedSequence(q)
    ensures EncodeChar(DecodeScalar(q) as char) == q
  {
    var n := DecodeScalar(q);
    var b0: int := q[0];
    if |q| == 2 {
      var p1 := Payload(q[1]);
      Split64(n, b0 - 0xC0, p1);
      assert EncodeChar(n as char) == [0xC0 + (b0 - 0xC0), 0x80 + p1];
    } else if |q| == 3 {
      var p1, p2 := Payload(q[1]), Payload(q[2]);
      var m := (b0 - 0xE0) * 0x40 + p1;
      Split4096(n, b0 - 0xE0, p1 * 0x40 + p2);
      Split64(n, m, p2);
      Split64(m, b0 - 0xE0, p1);
      assert EncodeChar(n as char) == [0xE0 + (b0 - 0xE0), 0x80 + p1, 0x80 + p2];
    } else if |q| == 4 {
      var p1, p2, p3 := Payload(q[1]), Payload(q[2]), Payload(q[3]);
      var t := (b0 - 0xF0) * 0x40 + p1;
      var m := t * 0x40 + p2;
      Split262144(n, b0 - 0xF0, p1 * 0x1000 + p2 * 0x40 + p3);
      Split4096(n, t, p2 * 0x40 + p3);
      Split64(t, b0 - 0xF0, p1);
      Split64(n, m, p3);
      Split64(m, t, p2);
      assert EncodeChar(n as char) == [0xF0 + (b0 - 0xF0), 0x80 + p1, 0x80 + p2, 0x80 + p3];
    }
  }

  /** Bytes that decode to some text are exactly that text's encoding. */
  lemma {:induction false} EncodeDecode(bs: seq<byte>)
    requires Decode(bs).Some?
    ensures Encode(Decode(bs).value) == bs
    decreases |bs|
  {
    if bs != [] {
      var k := SequenceLength(bs[0]);
      var q := bs[..k];
      var s := Decode(bs).value;
      EncodeDecode(bs[k..]);
      SequenceIsEncoding(q);
      assert s[0] == DecodeScalar(q) as char && s[1..] == Decode(bs[k..]).value;
      assert Encode(s) == EncodeChar(s[0]) + Encode(s[1..]);
      assert bs == q + bs[k..];
    }
  }

  /** Text has one UTF-8 form: every byte sequence that decodes to `s` is `Encode(s)`. */
  lemma DecodeDetermines(s: string)
    ensures forall bs :: Decode(bs) == Some(s) ==> bs == Encode(s)
  {
    forall bs | Decode(bs) == Some(s) ensures bs == Encode(s) {
      EncodeDecode(bs);
    }
  }
}
