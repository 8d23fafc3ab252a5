# SQL literal conversion in polars

polars lets users write SQL over data frames. Before a query runs, each literal
in the SQL text is turned into a runtime scalar value. This project models that step.

- A bit-string literal `b'...'` becomes binary data: `b'1001'` is the byte 0x09,
  and `b'1111110100110010'` is the two bytes 0xFD 0x32. The model zero-pads the
  digits on the left to a whole number of bytes and gives one byte per started
  group of eight digits.
- A hex-string literal `x'...'` becomes binary data, two digits per byte, in
  either letter case.
- A quoted string becomes UTF-8 text.
- Numbers, booleans and `NULL` pass through.
- A national string `N'...'` is refused as unsupported.
- A bit string with a digit other than 0 or 1 is a syntax error. So is a hex
  string with an odd number of digits.
- A parenthesised list, as in `IN (...)`, converts element by element. It fails
  with the error of the first element that fails.

Converted values take part in filters over a binary column:
- `WHERE bin > v` compares byte sequences lexicographically.
- `WHERE bin IN (...)` tests equality with any element of the list.

When a text value is compared with binary data, the text value stands for its
UTF-8 bytes.

The model is written as pure functions and lemmas:

| module | file | what it holds |
|---|---|---|
| `Results` | `results.dfy` | `Option` and `Result` |
| `Errors` | `errors.dfy` | the two error categories and their messages |
| `Bytes` | `bytes.dfy` | bytes and powers of two |
| `BitString` | `bit_string.dfy` | bit-string validation and packing, and the inverse unpacking |
| `HexString` | `hex_string.dfy` | hex-string validation and packing, and hex text of bytes |
| `Utf8` | `utf8.dfy` | UTF-8 encoding and decoding |
| `Literals` | `literals.dfy` | literal tokens, scalar values, single and list conversion |
| `Compare` | `compare.dfy` | the byte order, coercion to bytes, and the `>` and `IN` filters |
| `Scenarios` | `scenarios.dfy` | every concrete literal, error and filter of the literal tests, proved about the model |

The behaviour is fixed by the literal tests in `py-polars/tests/unit/sql/test_literals.py`.
The Rust visitor that implements it is not part of this model. Where the tests leave
something open, the model makes its own choices, listed under "## Left out":
- padding to whole bytes on the left, giving ceil(n/8) bytes for every length;
- hex parity is checked before hex characters;
- the first failing list element decides the error.

## Model

| member | source | states |
|---|---|---|
| BitString.ValidateBits | py-polars/tests/unit/sql/test_literals.py:52-56 | a bit string is rejected exactly when some character is neither 0 nor 1; the error is a syntax violation with the bit-string message; an accepted string is returned unchanged |
| BitString.PackBits | py-polars/tests/unit/sql/test_literals.py:15-18 | a valid bit string of n digits packs to ceil(n/8) bytes |
| BitString.PackBitsRoundTrip | py-polars/tests/unit/sql/test_literals.py:15-18 | unpacking the packed bytes gives fewer than 8 zero bits followed by exactly the original digits |
| BitString.PackUnpackBits | py-polars/tests/unit/sql/test_literals.py:15-18 | packing the digits of any byte sequence gives that byte sequence back, with no padding |
| BitString.PackBitsValue | py-polars/tests/unit/sql/test_literals.py:15-18 | the packed bytes, read big-endian, denote the same integer as the binary digits |
| BitString.LeadingZerosWithinByte | py-polars/tests/unit/sql/test_literals.py:45 | leading zeros that do not start a new byte do not change the packed bytes, so `b'10'` and `b'0010'` are the same value |
| BitString.PackBitsOfUnpacked | py-polars/tests/unit/sql/test_literals.py:28-32 | when the left-padded digits are the bits of some bytes, the packed value is exactly those bytes |
| HexString.ValidateHex | py-polars/tests/unit/sql/test_literals.py:58-62 | an odd-length hex string fails with the parity message; an even-length one with a non-hex character fails with the hex-digit message; a hex string is accepted exactly when its length is even and every character is a hex digit; every failure is a syntax violation |
| HexString.PackHex | py-polars/tests/unit/sql/test_literals.py:20-23 | a valid hex string of n digits packs to n/2 bytes, and byte i is the value of digit pair i, high digit first |
| HexString.PackHexCaseInsensitive | py-polars/tests/unit/sql/test_literals.py:23 | upper- and lower-casing a valid hex string keep it valid and do not change its bytes |
| HexString.ValidateHexCaseInsensitive | py-polars/tests/unit/sql/test_literals.py:23 | letter case changes neither the validation verdict nor the error |
| HexString.PackHexToHex | py-polars/tests/unit/sql/test_literals.py:20-23 | packing the hex text of any byte sequence gives that byte sequence back |
| HexString.ToHexPackHex | py-polars/tests/unit/sql/test_literals.py:20-23 | the hex text of the packed bytes is the original digit string in lower case |
| HexString.PackHexOfText | py-polars/tests/unit/sql/test_literals.py:33-36 | when the lower-cased digits are the hex text of some bytes, the packed value is exactly those bytes |
| Utf8.DecodeEncode | py-polars/tests/unit/sql/test_literals.py:45 | decoding the UTF-8 encoding of any text gives that text back; the decoder rejects non-continuation bytes, overlong forms and surrogates |
| Utf8.SequenceIsEncoding | py-polars/tests/unit/sql/test_literals.py:45 | every well-formed sequence is the encoding of the character it carries |
| Utf8.EncodeDecode | py-polars/tests/unit/sql/test_literals.py:45 | bytes that decode to some text are exactly that text's encoding |
| Utf8.DecodeDetermines | py-polars/tests/unit/sql/test_literals.py:45 | every byte sequence that decodes to a text is that text's encoding, so the encoding is the one UTF-8 form |
| Utf8.EncodeCharShape | py-polars/tests/unit/sql/test_literals.py:45 | the encoding of each character is one well-formed sequence: the leading byte announces its length, the other bytes are continuation bytes, it is not overlong, and its payload is the character |
| Utf8.EncodeAscii | py-polars/tests/unit/sql/test_literals.py:45 | ASCII text encodes to one byte per character, equal to its code point |
| Literals.Convert | py-polars/tests/unit/sql/test_literals.py:9-74 | conversion fails exactly for a malformed bit or hex string, or a national string; the national string alone is unsupported and its message names the literal; the bit-string, parity and national-string messages are those of the tests, and an even-length hex string with a non-hex character gets the model's hex-digit message; bit strings give ceil(n/8) bytes whose bits are the left-padded digits; hex strings give n/2 bytes whose hex text is the digits in lower case; quoted strings give text; numbers, booleans and null pass through unchanged |
| Literals.ConvertList | py-polars/tests/unit/sql/test_literals.py:64-68 | a list converts exactly when every element does, element by element; otherwise the error is that of the first failing element |
| Literals.ConvertSingleton | py-polars/tests/unit/sql/test_literals.py:85-89 | a one-element list and a single literal give the same outcome |
| Literals.ConvertListAppend | py-polars/tests/unit/sql/test_literals.py:64-68 | converting `a + b` converts `a` and then `b`; a failure in `a` is the result and nothing in `b` is looked at |
| Literals.ConvertHexCaseInsensitive | py-polars/tests/unit/sql/test_literals.py:23 | letter case in a hex literal never changes its outcome, error or value |
| Literals.ConvertPaddedBits | py-polars/tests/unit/sql/test_literals.py:28-32 | a bit literal whose left-padded digits are the bits of some bytes converts to exactly those bytes |
| Literals.ConvertHexText | py-polars/tests/unit/sql/test_literals.py:33-36 | a hex literal whose lower-cased digits are the hex text of some bytes converts to exactly those bytes |
| Literals.ConvertPair | py-polars/tests/unit/sql/test_literals.py:85-89 | a two-element list converts to its two converted elements, in order |
| Literals.ConvertBitsOfBytes | py-polars/tests/unit/sql/test_literals.py:86 | a bit literal spelled from the bits of some bytes converts to exactly those bytes |
| Literals.ConvertHexOfBytes | py-polars/tests/unit/sql/test_literals.py:87 | a hex literal spelled from some bytes converts to exactly those bytes |
| Compare.ByteLessIsLessAt | py-polars/tests/unit/sql/test_literals.py:46 | the byte order holds exactly when `a` is a proper prefix of `b` or the first differing byte of `a` is smaller |
| Compare.ByteLessTransitive | py-polars/tests/unit/sql/test_literals.py:46 | the byte order is transitive |
| Compare.ByteLessTrichotomy | py-polars/tests/unit/sql/test_literals.py:46 | for any two byte sequences exactly one of less, equal and greater holds |
| Compare.Coerce | py-polars/tests/unit/sql/test_literals.py:45-46 | binary and text values have bytes and no other kind does; binary keeps its bytes; text gives the one byte sequence that decodes back to it |
| Compare.CoerceAll | py-polars/tests/unit/sql/test_literals.py:85-89 | a list has bytes exactly when every element does, and then element by element |
| Compare.SelectMembers | py-polars/tests/unit/sql/test_literals.py:46-47 | a label is selected exactly when some row carrying it passes the condition |
| Compare.SelectIsSubsequence | py-polars/tests/unit/sql/test_literals.py:46-47 | selection keeps row order and only deletes rows |
| Compare.SelectAppend | py-polars/tests/unit/sql/test_literals.py:46-47 | selecting from two blocks of rows selects from each in turn |
| Compare.PassingIndices | py-polars/tests/unit/sql/test_literals.py:46-47 | the positions of the passing rows are ascending, each below the row count, and hold exactly the rows that pass |
| Compare.SelectByIndices | py-polars/tests/unit/sql/test_literals.py:46-47 | selection picks, in row order, the label of every passing row and of no other row, so repeated labels are kept once per row |
| Compare.IncreasingUnique | py-polars/tests/unit/sql/test_literals.py:46-47 | ascending positions are determined by the set of positions they hold, so the filters' row-by-row contracts have one solution |
| Compare.FilterGreater | py-polars/tests/unit/sql/test_literals.py:40-47 | defined exactly for binary and text probes; the result lists, row by row and in row order, the label of every row sorting strictly after the probe's bytes and of no other row |
| Compare.FilterIn | py-polars/tests/unit/sql/test_literals.py:77-91 | defined exactly when every list element is binary or text; the result lists, row by row and in row order, the label of every row equal to some element's bytes and of no other row |
| Scenarios.BitLiterals | py-polars/tests/unit/sql/test_literals.py:15-18 | `b''`, `b'1001'`, `b'11101011'` and `b'1111110100110010'` give empty, 0x09, 0xEB and 0xFD 0x32 |
| Scenarios.HexLiterals | py-polars/tests/unit/sql/test_literals.py:20-23 | `x''`, `x'FF'`, `x'4142'` and `x'DeadBeef'` give empty, 0xFF, 0x41 0x42 and 0xDE 0xAD 0xBE 0xEF |
| Scenarios.BitHexErrors | py-polars/tests/unit/sql/test_literals.py:52-62 | `b'007'` and `x'00F'` fail as syntax violations with the bit-string and parity messages |
| Scenarios.MembershipListError | py-polars/tests/unit/sql/test_literals.py:64-68 | the list `(x'FF', x'123')` fails with the parity error |
| Scenarios.NationalStringError | py-polars/tests/unit/sql/test_literals.py:70-74 | `N'hmmm'` is unsupported with the message `NationalStringLiteral("hmmm") is not supported` |
| Scenarios.BitHexFilter | py-polars/tests/unit/sql/test_literals.py:40-47 | the four spellings of two convert to the byte 0x02 or the text of it, and `bin > two` selects the labels 7 and 6 for both |
| Scenarios.BitHexMembership | py-polars/tests/unit/sql/test_literals.py:77-91 | both literal lists convert to 0x05 and 0x0B, and `x IN (...)` selects the labels 1 and 4 |

## Left out

- The SQL context and query execution are not modelled: registering frames,
  eager and lazy execution, projection (`SELECT *`), and the data-frame and column
  plumbing. A filter is modelled on a sequence of rows, each a binary value
  with a label.
- The SQL tokenizer and grammar are not modelled. A literal arrives as an already
  classified token with its digits, without quotes or prefix.
- Number literals are modelled as an already parsed integer that passes through.
  Float literals and the parsing of number text are not modelled.
- Literals.Convert: the integer value is unbounded, while the engine stores 64-bit
  integers. None of the modelled behaviour depends on that width.
- BitString.PackBits: the tests show bit strings of 0, 2, 4, 8 and 16 digits.
  For other lengths, left padding to ceil(n/8) bytes is the model's choice.
- Literals.Convert: no maximum length is imposed on bit strings. If the engine
  has one, it is not part of this model.
- HexString.ValidateHex: an even-length string with a non-hex character fails
  with a syntax violation and its own message. The literal tests only check
  the parity error, so that message is a design choice of the model.
- HexString.ValidateHex: an odd-length string fails on parity whatever its
  characters. The tests show no string that is both odd-length and has a non-hex
  character, so this order is the model's choice.
- Literals.ConvertList: when several elements fail, the first one's error is
  returned. The tests show lists with at most one failing element, so this rule
  is the model's choice.
- Compare.FilterGreater: comparing a binary column with a value that is neither
  binary nor text gives `None`. The engine's own error for this case is not
  modelled.
- Compare.FilterIn: a list element that is neither binary nor text gives `None`.
  The engine's own error for this case is not modelled.
- Errors are modelled as a category and a message. A syntax violation stands
  for SQLSyntaxError and an unsupported construct for SQLInterfaceError. The
  Python exception classes and any text around the message are not modelled.
