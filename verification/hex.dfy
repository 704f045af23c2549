/**
  Hexadecimal digits at the byte level: the digit lookup table used by the
  decoder (`hexValues`, `hexToByte` in uuid.go) and the lower-case encoding
  the encoder takes from Go's encoding/hex package.
 */
module Hex {

  /** A Go `byte`. Go strings are modelled as the sequence of their bytes. */
  type byte = bv8

  // ---------------------------------------------------------------------------
  // Reference definition of a hex digit, by character ranges
  // ---------------------------------------------------------------------------

  /** `0`..`9` (0x30..0x39). */
  predicate IsDecimalDigit(c: byte) { 0x30 <= c <= 0x39 }
  /** `a`..`f` (0x61..0x66). */
  predicate IsLowerLetterDigit(c: byte) { 0x61 <= c <= 0x66 }
  /** `A`..`F` (0x41..0x46). */
  predicate IsUpperLetterDigit(c: byte) { 0x41 <= c <= 0x46 }

  /** A hexadecimal digit of either case, as the decoder accepts it. */
  predicate IsHexDigit(c: byte) {
    IsDecimalDigit(c) || IsLowerLetterDigit(c) || IsUpperLetterDigit(c)
  }

  /** A hexadecimal digit as the encoder writes it: `0-9` or `a-f`. */
  predicate IsLowerHexDigit(c: byte) {
    IsDecimalDigit(c) || IsLowerLetterDigit(c)
  }

  /** The value 0..15 a hex digit denotes. */
  function DigitValue(c: byte): (v: byte)
    requires IsHexDigit(c)
    ensures v < 16
  {
    if IsDecimalDigit(c) then c - 0x30
    else if IsLowerLetterDigit(c) then c - 0x61 + 10
    else c - 0x41 + 10
  }

  /** What the lookup table should hold for byte `c`. */
  function ExpectedEntry(c: byte): byte {
    if IsHexDigit(c) then DigitValue(c) else 0xff
  }

  // ---------------------------------------------------------------------------
  // The decoder's lookup table (`hexValues`), written as its sixteen rows
  // ---------------------------------------------------------------------------

  /** A row of sixteen codes of which none is a hex digit. */
  const NoDigits: seq<byte> :=
    [0xff, 0xff, 0xff, 0xff, 0xff, 0xff, 0xff, 0xff, 0xff, 0xff, 0xff, 0xff, 0xff, 0xff, 0xff, 0xff]

  /** Codes 0x30..0x3f: `0`..`9` then six punctuation characters. */
  const DecimalRow: seq<byte> :=
    [0x00, 0x01, 0x02, 0x03, 0x04, 0x05, 0x06, 0x07, 0x08, 0x09, 0xff, 0xff, 0xff, 0xff, 0xff, 0xff]

  /** Codes 0x40..0x4f and 0x60..0x6f: `@`/backquote, the letters `A`..`F`/`a`..`f`, further letters. */
  const LetterRow: seq<byte> :=
    [0xff, 0x0a, 0x0b, 0x0c, 0x0d, 0x0e, 0x0f, 0xff, 0xff, 0xff, 0xff, 0xff, 0xff, 0xff, 0xff, 0xff]

  /** Row `k` covers codes `16 * k .. 16 * k + 15`. */
  const HexValueRows: seq<seq<byte>> := [
    NoDigits, NoDigits, NoDigits, DecimalRow,
    LetterRow, NoDigits, LetterRow, NoDigits,
    NoDigits, NoDigits, NoDigits, NoDigits,
    NoDigits, NoDigits, NoDigits, NoDigits
  ]

  function Flatten(rows: seq<seq<byte>>): seq<byte> {
    if |rows| == 0 then [] else rows[0] + Flatten(rows[1..])
  }

  /** The 256-entry table: the digit value of each byte, or the 0xff sentinel. */
  const HexValues: seq<byte> := Flatten(HexValueRows)

  lemma {:induction false} FlattenLength(rows: seq<seq<byte>>)
    requires forall r | 0 <= r < |rows| :: |rows[r]| == 16
    ensures |Flatten(rows)| == 16 * |rows|
  {
    if |rows| > 0 {
      FlattenLength(rows[1..]);
    }
  }

  /** Entry `j` of row `k` lands at offset `16 * k + j` of the flattened table. */
  lemma {:induction false} FlattenIndex(rows: seq<seq<byte>>, k: int, j: int)
    requires forall r | 0 <= r < |rows| :: |rows[r]| == 16
    requires 0 <= k < |rows| && 0 <= j < 16
    ensures |Flatten(rows)| == 16 * |rows|
    ensures Flatten(rows)[16 * k + j] == rows[k][j]
  {
    FlattenLength(rows);
    if k > 0 {
      FlattenIndex(rows[1..], k - 1, j);
    }
  }

  lemma RowShape(k: int)
    requires 0 <= k < 16
    ensures HexValueRows[k] ==
      if k == 3 then DecimalRow else if k == 4 || k == 6 then LetterRow else NoDigits
  {
  }

  lemma RowsAreSixteenWide()
    ensures |HexValueRows| == 16
    ensures forall r | 0 <= r < |HexValueRows| :: |HexValueRows[r]| == 16
  {
    forall r | 0 <= r < |HexValueRows|
      ensures |HexValueRows[r]| == 16
    {
      RowShape(r);
    }
  }

  lemma DecimalRowEntry(c: byte)
    requires c >> 4 == 3
    ensures DecimalRow[(c & 0x0f) as int] == ExpectedEntry(c)
  {
  }

  lemma UpperRowEntry(c: byte)
    requires c >> 4 == 4
    ensures LetterRow[(c & 0x0f) as int] == ExpectedEntry(c)
  {
  }

  lemma LowerRowEntry(c: byte)
    requires c >> 4 == 6
    ensures LetterRow[(c & 0x0f) as int] == ExpectedEntry(c)
  {
  }

  lemma NoDigitsEntry(c: byte)
    requires c >> 4 != 3 && c >> 4 != 4 && c >> 4 != 6
    ensures NoDigits[(c & 0x0f) as int] == ExpectedEntry(c)
  {
  }

  /** A byte splits into its row (high nibble) and column (low nibble). */
  lemma RowColumn(c: byte)
    ensures c as int == 16 * (c >> 4) as int + (c & 0x0f) as int
  {
  }

  /**
    The table maps every digit of either case to its value and every other
    byte to the sentinel 0xff; no digit value is 0xff, so the sentinel is
    unambiguous.
   */
  lemma HexValuesAgree(c: byte)
    ensures |HexValues| == 256
    ensures IsHexDigit(c) ==> HexValues[c as int] == DigitValue(c)
    ensures !IsHexDigit(c) ==> HexValues[c as int] == 0xff
  {
    var k, j := (c >> 4) as int, (c & 0x0f) as int;
    RowsAreSixteenWide();
    FlattenIndex(HexValueRows, k, j);
    RowColumn(c);
    RowShape(k);
    if k == 3 {
      DecimalRowEntry(c);
    } else if k == 4 {
      UpperRowEntry(c);
    } else if k == 6 {
      LowerRowEntry(c);
    } else {
      NoDigitsEntry(c);
    }
  }

  // ---------------------------------------------------------------------------
  // Decoding a pair of digits (`hexToByte`)
  // ---------------------------------------------------------------------------

  /**
    Looks both characters up in the table and combines the two values into one
    byte; the flag is set only when neither lookup hit the sentinel. The value
    is computed (and meaningless) even when the flag is clear.
   */
  function HexToByte(x1: byte, x2: byte): (r: (byte, bool))
    ensures r.1 <==> IsHexDigit(x1) && IsHexDigit(x2)
    ensures r.1 ==> r.0 >> 4 == DigitValue(x1) && r.0 & 0x0f == DigitValue(x2)
    ensures r.1 ==> r.0 as int == 16 * DigitValue(x1) as int + DigitValue(x2) as int
  {
    HexValuesAgree(x1);
    HexValuesAgree(x2);
    var b1 := HexValues[x1 as int];
    var b2 := HexValues[x2 as int];
    ((b1 << 4) | b2, b1 != 0xff && b2 != 0xff)
  }

  // ---------------------------------------------------------------------------
  // Encoding (Go's encoding/hex, lower-case)
  // ---------------------------------------------------------------------------

  /** The digit alphabet `0123456789abcdef` of encoding/hex: value `n` is written as `HexTable[n]`. */
  const HexTable: seq<byte> :=
    [0x30, 0x31, 0x32, 0x33, 0x34, 0x35, 0x36, 0x37, 0x38, 0x39, 0x61, 0x62, 0x63, 0x64, 0x65, 0x66]

  /** The lower-case digit of each value 0..15 denotes that value, and only it. */
  lemma HexTableDigits(n: byte)
    requires n < 16
    ensures |HexTable| == 16
    ensures IsLowerHexDigit(HexTable[n as int]) && DigitValue(HexTable[n as int]) == n
  {
  }

  /** Every lower-case digit is written back as itself. */
  lemma HexTableCoversLowerDigits(c: byte)
    requires IsLowerHexDigit(c)
    ensures |HexTable| == 16 && HexTable[DigitValue(c) as int] == c
  {
  }

  /** The two lower-case digits of one byte, high nibble first. */
  function EncodeByte(v: byte): (r: seq<byte>)
    ensures |r| == 2
    ensures IsLowerHexDigit(r[0]) && DigitValue(r[0]) == v >> 4
    ensures IsLowerHexDigit(r[1]) && DigitValue(r[1]) == v & 0x0f
  {
    HexTableDigits(v >> 4);
    HexTableDigits(v & 0x0f);
    [HexTable[(v >> 4) as int], HexTable[(v & 0x0f) as int]]
  }

  /** The two characters at offsets `p` and `p + 1` of `s` are the encoding of `v`. */
  predicate PairAt(s: seq<byte>, p: int, v: byte) {
    0 <= p && p + 1 < |s| && s[p] == EncodeByte(v)[0] && s[p + 1] == EncodeByte(v)[1]
  }

  /** `hex.Encode`: source byte `i` becomes the digit pair at offsets `2 * i` and `2 * i + 1`. */
  function Encode(src: seq<byte>): (r: seq<byte>)
    ensures |r| == 2 * |src|
    ensures forall i | 0 <= i < |src| :: PairAt(r, 2 * i, src[i])
  {
    if |src| == 0 then [] else EncodeByte(src[0]) + Encode(src[1..])
  }

  /** The lower-case form of a digit: `A`..`F` become `a`..`f`, every other byte is kept. */
  function LowerDigit(c: byte): (d: byte)
    ensures IsHexDigit(c) ==> IsLowerHexDigit(d) && DigitValue(d) == DigitValue(c)
    ensures !IsUpperLetterDigit(c) ==> d == c
  {
    if IsUpperLetterDigit(c) then c + 0x20 else c
  }

  // ---------------------------------------------------------------------------
  // The digit pair codec is a bijection between bytes and lower-case pairs
  // ---------------------------------------------------------------------------

  /** Decoding the pair a byte encodes to gives the byte back, flagged valid. */
  lemma DecodeEncodeByte(v: byte)
    ensures HexToByte(EncodeByte(v)[0], EncodeByte(v)[1]) == (v, true)
  {
    var e := EncodeByte(v);
    var r := HexToByte(e[0], e[1]);
    assert r.0 >> 4 == v >> 4 && r.0 & 0x0f == v & 0x0f;
  }

  /** A lower-case digit pair decodes to the byte that encodes back to it. */
  lemma EncodeDecodeByte(x1: byte, x2: byte)
    requires IsLowerHexDigit(x1) && IsLowerHexDigit(x2)
    ensures HexToByte(x1, x2).1
    ensures EncodeByte(HexToByte(x1, x2).0) == [x1, x2]
  {
    var b := HexToByte(x1, x2).0;
    var e := EncodeByte(b);
    LowerDigitsAgree(e[0], x1);
    LowerDigitsAgree(e[1], x2);
  }

  /** Two lower-case digits with the same value are the same character. */
  lemma LowerDigitsAgree(c: byte, d: byte)
    requires IsLowerHexDigit(c) && IsLowerHexDigit(d)
    requires DigitValue(c) == DigitValue(d)
    ensures c == d
  {
    HexTableCoversLowerDigits(c);
    HexTableCoversLowerDigits(d);
  }
}
