/** The concrete literals, errors and filters of the SQL literal tests, proved about the model. */
module Scenarios {
  import opened Bytes
  import opened Errors
  import opened Results
  import opened BitString
  import opened HexString
  import opened Literals
  import opened Compare

  lemma Bits1001()
    ensures Convert(BitStringLit("1001")) == Ok(Binary([0x09]))
  {
    ConvertPaddedBits("1001", [0x09]);
  }

  lemma Bits11101011()
    ensures Convert(BitStringLit("11101011")) == Ok(Binary([0xEB]))
  {
    ConvertPaddedBits("11101011", [0xEB]);
  }

  lemma BitsOfFD()
    ensures NatBits(0xFD, 8) == "11111101"
  {
  }

  lemma BitsOf32()
    ensures UnpackBits([0x32]) == "00110010"
  {
  }

  lemma UnpackTwoBytes()
    ensures UnpackBits([0xFD, 0x32]) == "1111110100110010"
  {
    var bs: seq<byte> := [0xFD, 0x32];
    assert bs[1..] == [0x32];
    BitsOf32();
    BitsOfFD();
    assert UnpackBits(bs) == "11111101" + "00110010";
  }

  lemma BitsTwoBytes()
    ensures Convert(BitStringLit("1111110100110010")) == Ok(Binary([0xFD, 0x32]))
  {
    UnpackTwoBytes();
    assert LeftPad("1111110100110010") == "1111110100110010";
    ConvertPaddedBits("1111110100110010", [0xFD, 0x32]);
  }

  /** The bit-string columns of the literal test. */
  lemma BitLiterals()
    ensures Convert(BitStringLit("")) == Ok(Binary([]))
    ensures Convert(BitStringLit("1001")) == Ok(Binary([0x09]))
    ensures Convert(BitStringLit("11101011")) == Ok(Binary([0xEB]))
    ensures Convert(BitStringLit("1111110100110010")) == Ok(Binary([0xFD, 0x32]))
  {
    ConvertPaddedBits("", []);
    Bits1001();
    Bits11101011();
    BitsTwoBytes();
  }

  lemma HexFF()
    ensures Convert(HexStringLit("FF")) == Ok(Binary([0xFF]))
  {
    ConvertHexText("FF", [0xFF]);
  }

  lemma Hex4142()
    ensures Convert(HexStringLit("4142")) == Ok(Binary([0x41, 0x42]))
  {
    ConvertHexText("4142", [0x41, 0x42]);
  }

  lemma DeadBeefText()
    ensures AllHex("DeadBeef") && Lower("DeadBeef") == ToHex([0xDE, 0xAD, 0xBE, 0xEF])
  {
    assert Lower("DeadBeef") == "deadbeef";
    assert ToHex([0xDE, 0xAD, 0xBE, 0xEF]) == "deadbeef";
  }

  lemma HexMixedCase()
    ensures Convert(HexStringLit("DeadBeef")) == Ok(Binary([0xDE, 0xAD, 0xBE, 0xEF]))
  {
    DeadBeefText();
    ConvertHexText("DeadBeef", [0xDE, 0xAD, 0xBE, 0xEF]);
  }

  /** The hex-string columns of the literal test; `DeadBeef` mixes letter case. */
  lemma HexLiterals()
    ensures Convert(HexStringLit("")) == Ok(Binary([]))
    ensures Convert(HexStringLit("FF")) == Ok(Binary([0xFF]))
    ensures Convert(HexStringLit("4142")) == Ok(Binary([0x41, 0x42]))
    ensures Convert(HexStringLit("DeadBeef")) == Ok(Binary([0xDE, 0xAD, 0xBE, 0xEF]))
  {
    ConvertHexText("", []);
    HexFF();
    Hex4142();
    HexMixedCase();
  }

  /** The two malformed literals of the error test. */
  lemma BitHexErrors()
    ensures Convert(BitStringLit("007")) == Err(ConversionError(SyntaxViolation, BitStringMessage))
    ensures Convert(HexStringLit("00F")) == Err(ConversionError(SyntaxViolation, HexParityMessage))
  {
    assert "007"[2] == '7';
  }

  /** `IN (x'FF', x'123')` fails with the odd-length error of its second element. */
  lemma MembershipListError()
    ensures ConvertList([HexStringLit("FF"), HexStringLit("123")]) == Err(ConversionError(SyntaxViolation, HexParityMessage))
  {
    HexFF();
    ConvertListAppend([HexStringLit("FF")], [HexStringLit("123")]);
    ConvertSingleton(HexStringLit("FF"));
    ConvertSingleton(HexStringLit("123"));
    assert [HexStringLit("FF")] + [HexStringLit("123")] == [HexStringLit("FF"), HexStringLit("123")];
  }

  /** `N'hmmm'` is an unsupported construct whose message names the literal. */
  lemma NationalStringError()
    ensures Convert(NationalStringLit("hmmm")) == Err(ConversionError(UnsupportedConstruct, "NationalStringLiteral(\"hmmm\") is not supported"))
  {
    HmmmMessage();
  }

  lemma HmmmMessage()
    ensures NationalStringMessage("hmmm") == "NationalStringLiteral(\"hmmm\") is not supported"
  {
  }

  function FilterRows(): seq<Row> {
    [Row([0x01], 9), Row([0x02], 8), Row([0x03], 7), Row([0x04], 6)]
  }

  lemma GreaterThanTwo()
    ensures FilterGreater(FilterRows(), Binary([0x02])) == Some([7, 6])
  {
    var rows := FilterRows();
    var cond := GreaterThan([0x02]);
    var r1, r2, r3 := rows[1..], rows[2..], rows[3..];
    assert r1[1..] == r2 && r2[1..] == r3 && r3[1..] == [];
    assert r3[0] == Row([0x04], 6) && Passes(cond, [0x04]);
    assert Select(r3, cond) == [6];
    assert r2[0] == Row([0x03], 7) && Passes(cond, [0x03]);
    assert Select(r2, cond) == [7, 6];
    assert r1[0] == Row([0x02], 8) && !Passes(cond, [0x02]);
    assert Select(r1, cond) == [7, 6];
    assert rows[0] == Row([0x01], 9) && !Passes(cond, [0x01]);
    assert Select(rows, cond) == [7, 6];
  }

  lemma ShortBitsTwo()
    ensures Convert(BitStringLit("10")) == Ok(Binary([0x02]))
  {
    ConvertPaddedBits("10", [0x02]);
  }

  /** `b'0010'` is `b'10'` with leading zeros inside its one byte. */
  lemma PaddedBitsTwo()
    ensures Convert(BitStringLit("0010")) == Ok(Binary([0x02]))
  {
    ShortBitsTwo();
    assert Zeros(2) + "10" == "0010";
    LeadingZerosWithinByte(2, "10");
  }

  lemma Hex02()
    ensures Convert(HexStringLit("02")) == Ok(Binary([0x02]))
  {
    ConvertHexText("02", [0x02]);
  }

  lemma SpellingsOfTwo()
    ensures Convert(BitStringLit("10")) == Ok(Binary([0x02]))
    ensures Convert(BitStringLit("0010")) == Ok(Binary([0x02]))
    ensures Convert(HexStringLit("02")) == Ok(Binary([0x02]))
  {
    ShortBitsTwo();
    PaddedBitsTwo();
    Hex02();
  }

  lemma TextTwo()
    ensures Convert(QuotedStringLit("\U{2}")) == Ok(Utf8Text("\U{2}"))
    ensures Coerce(Utf8Text("\U{2}")) == Some([0x02])
  {
    assert Utf8.Encode("\U{2}") == [0x02];
  }

  /** `WHERE bin > two` for the four spellings of the byte 0x02, one of them a text literal. */
  lemma BitHexFilter()
    ensures Convert(BitStringLit("10")) == Ok(Binary([0x02]))
    ensures Convert(HexStringLit("02")) == Ok(Binary([0x02]))
    ensures Convert(QuotedStringLit("\U{2}")) == Ok(Utf8Text("\U{2}"))
    ensures Convert(BitStringLit("0010")) == Ok(Binary([0x02]))
    ensures FilterGreater(FilterRows(), Binary([0x02])) == Some([7, 6])
    ensures FilterGreater(FilterRows(), Utf8Text("\U{2}")) == Some([7, 6])
  {
    SpellingsOfTwo();
    TextTwo();
    GreaterThanTwo();
  }

  function MembershipRows(): seq<Row> {
    [Row([0x05], 1), Row([0xFF], 2), Row([0xCC], 3), Row([0x0B], 4)]
  }

  lemma InFiveEleven()
    ensures FilterIn(MembershipRows(), [Binary([0x05]), Binary([0x0B])]) == Some([1, 4])
  {
    var rows := MembershipRows();
    var vs := [Binary([0x05]), Binary([0x0B])];
    var ps: seq<seq<byte>> := [[0x05], [0x0B]];
    assert vs[1..] == [Binary([0x0B])] && vs[1..][1..] == [];
    assert CoerceAll(vs[1..][1..]) == Some([]);
    assert Coerce(vs[1..][0]) == Some([0x0B]);
    assert [[0x0B]] + [] == [[0x0B]];
    assert CoerceAll(vs[1..]) == Some([[0x0B]]);
    assert Coerce(vs[0]) == Some([0x05]);
    assert [[0x05]] + [[0x0B]] == ps;
    assert CoerceAll(vs) == Some(ps);
    var cond := OneOf(ps);
    var r1, r2, r3 := rows[1..], rows[2..], rows[3..];
    assert r1[1..] == r2 && r2[1..] == r3 && r3[1..] == [];
    assert r3[0] == Row([0x0B], 4) && Passes(cond, [0x0B]);
    assert Select(r3, cond) == [4];
    assert r2[0] == Row([0xCC], 3) && !Passes(cond, [0xCC]);
    assert Select(r2, cond) == [4];
    assert r1[0] == Row([0xFF], 2) && !Passes(cond, [0xFF]);
    assert Select(r1, cond) == [4];
    assert rows[0] == Row([0x05], 1) && Passes(cond, [0x05]);
    assert Select(rows, cond) == [1, 4];
  }

  lemma Bits0101()
    ensures Convert(BitStringLit("0101")) == Ok(Binary([0x05]))
  {
    ConvertPaddedBits("0101", [0x05]);
  }

  lemma Bits1011()
    ensures Convert(BitStringLit("1011")) == Ok(Binary([0x0B]))
  {
    ConvertPaddedBits("1011", [0x0B]);
  }

  lemma BitList()
    ensures ConvertList([BitStringLit("0101"), BitStringLit("1011")]) == Ok([Binary([0x05]), Binary([0x0B])])
  {
    Bits0101();
    Bits1011();
    ConvertPair(BitStringLit("0101"), BitStringLit("1011"), Binary([0x05]), Binary([0x0B]));
  }

  lemma Hex05()
    ensures Convert(HexStringLit("05")) == Ok(Binary([0x05]))
  {
    ConvertHexText("05", [0x05]);
  }

  lemma Hex0b()
    ensures Convert(HexStringLit("0b")) == Ok(Binary([0x0B]))
  {
    ConvertHexText("0b", [0x0B]);
  }

  lemma HexList()
    ensures ConvertList([HexStringLit("05"), HexStringLit("0b")]) == Ok([Binary([0x05]), Binary([0x0B])])
  {
    Hex05();
    Hex0b();
    ConvertPair(HexStringLit("05"), HexStringLit("0b"), Binary([0x05]), Binary([0x0B]));
  }

  /** `WHERE x IN (...)` with a bit-string list and with a lower-case hex list. */
  lemma BitHexMembership()
    ensures ConvertList([BitStringLit("0101"), BitStringLit("1011")]) == Ok([Binary([0x05]), Binary([0x0B])])
    ensures ConvertList([HexStringLit("05"), HexStringLit("0b")]) == Ok([Binary([0x05]), Binary([0x0B])])
    ensures FilterIn(MembershipRows(), [Binary([0x05]), Binary([0x0B])]) == Some([1, 4])
  {
    BitList();
    HexList();
    InFiveEleven();
  }
}
