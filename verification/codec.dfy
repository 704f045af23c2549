/**
  The canonical text form of an identifier (section 3 of RFC 4122):
  36 characters, `xxxxxxxx-xxxx-xxxx-xxxx-xxxxxxxxxxxx`. The encoder
  (`UUID.String` / `encodeHex`) and the decoder (`Parse` / `parse`) of
  uuid.go, over the bytes of a Go string.
 */
module Codec {
  import opened Wrappers
  import opened Hex
  import opened Uuid

  /** The separator `-`. */
  const Dash: byte := 0x2d

  /** The four separator positions of the 36-character form. */
  predicate IsDashPosition(p: int) {
    p == 8 || p == 13 || p == 18 || p == 23
  }

  /**
    `hexStartedIndex`: byte `k` of the identifier is written as the two
    characters at offsets `HexStartedIndex[k]` and `HexStartedIndex[k] + 1`.
   */
  const HexStartedIndex: seq<int> := [0, 2, 4, 6, 9, 11, 14, 16, 19, 21, 24, 26, 28, 30, 32, 34]

  // ---------------------------------------------------------------------------
  // The layout of the 36 characters
  // ---------------------------------------------------------------------------

  /** How many separators precede position `p`. */
  function DashesBefore(p: int): int {
    (if p > 8 then 1 else 0) + (if p > 13 then 1 else 0)
    + (if p > 18 then 1 else 0) + (if p > 23 then 1 else 0)
  }

  /** The identifier byte whose digit sits at the non-separator position `p`. */
  function ByteOf(p: int): (k: int)
    requires 0 <= p < 36 && !IsDashPosition(p)
    ensures 0 <= k < 16
    ensures p == HexStartedIndex[k] || p == HexStartedIndex[k] + 1
  {
    (p - DashesBefore(p)) / 2
  }

  /**
    The sixteen digit pairs tile the 32 non-separator positions: each pair
    lies inside the string and off the separators, the pairs are in
    increasing order without overlap, and every non-separator position
    belongs to the pair of `ByteOf` it.
   */
  lemma HexStartedIndexLayout()
    ensures |HexStartedIndex| == 16
    ensures forall k | 0 <= k < 16 ::
      && 0 <= HexStartedIndex[k] && HexStartedIndex[k] + 1 < 36
      && !IsDashPosition(HexStartedIndex[k]) && !IsDashPosition(HexStartedIndex[k] + 1)
    ensures forall k, j | 0 <= k < j < 16 :: HexStartedIndex[k] + 1 < HexStartedIndex[j]
    ensures forall k | 0 <= k < 16 ::
      && ByteOf(HexStartedIndex[k]) == k && ByteOf(HexStartedIndex[k] + 1) == k
  {
  }

  /** A position holds a digit exactly when it lies in one of the sixteen pairs. */
  lemma HexPositionsArePairs(p: int)
    requires 0 <= p < 36
    ensures !IsDashPosition(p) <==>
      exists k | 0 <= k < 16 :: p == HexStartedIndex[k] || p == HexStartedIndex[k] + 1
  {
    HexStartedIndexLayout();
    if !IsDashPosition(p) {
      var k := ByteOf(p);
      assert p == HexStartedIndex[k] || p == HexStartedIndex[k] + 1;
    }
  }

  /** Closed form of the offset table: two characters per byte, plus one per separator passed. */
  lemma HexStartedIndexClosedForm(k: int)
    requires 0 <= k < 16
    ensures |HexStartedIndex| == 16
    ensures HexStartedIndex[k] ==
      2 * k + (if k >= 4 then 1 else 0) + (if k >= 6 then 1 else 0)
      + (if k >= 8 then 1 else 0) + (if k >= 10 then 1 else 0)
  {
  }

  // ---------------------------------------------------------------------------
  // Formats
  // ---------------------------------------------------------------------------

  /** Separators at positions 8, 13, 18 and 23. */
  predicate HasDashes(s: seq<byte>) {
    forall p | 0 <= p < |s| && IsDashPosition(p) :: s[p] == Dash
  }

  /** A digit of either case at every other position. */
  predicate AllHexDigits(s: seq<byte>) {
    forall p | 0 <= p < |s| && !IsDashPosition(p) :: IsHexDigit(s[p])
  }

  /** What the decoder accepts: 36 characters, separators in place, hex digits of either case. */
  predicate IsWellFormed(s: seq<byte>) {
    |s| == 36 && HasDashes(s) && AllHexDigits(s)
  }

  /** The canonical form the encoder produces: as `IsWellFormed`, with lower-case digits only. */
  predicate IsCanonical(s: seq<byte>) {
    && |s| == 36 && HasDashes(s)
    && forall p | 0 <= p < 36 && !IsDashPosition(p) :: IsLowerHexDigit(s[p])
  }

  /** Canonical text is well formed. */
  lemma CanonicalIsWellFormed(s: seq<byte>)
    requires IsCanonical(s)
    ensures IsWellFormed(s)
  {
  }

  /** Byte `b` is what the digit pair `x1`, `x2` denotes. */
  predicate Denotes(b: byte, x1: byte, x2: byte) {
    && IsHexDigit(x1) && IsHexDigit(x2)
    && b >> 4 == DigitValue(x1) && b & 0x0f == DigitValue(x2)
  }

  // ---------------------------------------------------------------------------
  // Encoder
  // ---------------------------------------------------------------------------

  /** `UUID.String` / `encodeHex`: the five digit groups 4-2-2-2-6 bytes long, joined by dashes. */
  function EncodeHex(id: UUID): (s: seq<byte>)
    ensures |s| == 36
  {
    Encode(id[..4]) + [Dash] + Encode(id[4..6]) + [Dash] + Encode(id[6..8]) + [Dash]
    + Encode(id[8..10]) + [Dash] + Encode(id[10..])
  }

  /** A run of `Encode` output placed at offset `off` holds byte `k`'s pair at `off + 2 * k`. */
  lemma EncodedRun(s: seq<byte>, off: int, src: seq<byte>, k: int)
    requires 0 <= off && off + 2 * |src| <= |s| && s[off..off + 2 * |src|] == Encode(src)
    requires 0 <= k < |src|
    ensures PairAt(s, off + 2 * k, src[k])
  {
    var run := s[off..off + 2 * |src|];
    assert PairAt(run, 2 * k, src[k]);
    assert s[off + 2 * k] == run[2 * k] && s[off + 2 * k + 1] == run[2 * k + 1];
  }

  /** Byte `k` of a group taken from offset `first` of the identifier. */
  lemma GroupByte(s: seq<byte>, id: UUID, first: int, last: int, off: int, k: int)
    requires 0 <= first <= k < last <= 16
    requires 0 <= off && off + 2 * (last - first) <= |s|
    requires s[off..off + 2 * (last - first)] == Encode(id[first..last])
    ensures PairAt(s, off + 2 * (k - first), id[k])
  {
    EncodedRun(s, off, id[first..last], k - first);
    assert id[first..last][k - first] == id[k];
  }

  /** Five runs of `Encode` output at offsets 0, 9, 14, 19 and 24 place byte `k` at `HexStartedIndex[k]`. */
  lemma GroupsLayout(s: seq<byte>, id: UUID)
    requires |s| == 36
    requires s[0..8] == Encode(id[0..4]) && s[9..13] == Encode(id[4..6]) && s[14..18] == Encode(id[6..8])
    requires s[19..23] == Encode(id[8..10]) && s[24..36] == Encode(id[10..16])
    ensures |HexStartedIndex| == 16
    ensures forall k | 0 <= k < 16 :: PairAt(s, HexStartedIndex[k], id[k])
  {
    HexStartedIndexLayout();
    forall k | 0 <= k < 16
      ensures PairAt(s, HexStartedIndex[k], id[k])
    {
      HexStartedIndexClosedForm(k);
      if k < 4 {
        GroupByte(s, id, 0, 4, 0, k);
      } else if k < 6 {
        GroupByte(s, id, 4, 6, 9, k);
      } else if k < 8 {
        GroupByte(s, id, 6, 8, 14, k);
      } else if k < 10 {
        GroupByte(s, id, 8, 10, 19, k);
      } else {
        GroupByte(s, id, 10, 16, 24, k);
      }
    }
  }

  /**
    Byte `k` of the identifier is written, high nibble first, as the two
    lower-case digits at `HexStartedIndex[k]`, and the separators are in place.
   */
  lemma EncodeHexLayout(id: UUID)
    ensures HasDashes(EncodeHex(id))
    ensures |HexStartedIndex| == 16
    ensures forall k | 0 <= k < 16 :: PairAt(EncodeHex(id), HexStartedIndex[k], id[k])
  {
    var s := EncodeHex(id);
    var g0, g1, g2, g3, g4 := Encode(id[..4]), Encode(id[4..6]), Encode(id[6..8]), Encode(id[8..10]), Encode(id[10..]);
    var p1 := g0 + [Dash];
    var p2 := p1 + g1 + [Dash];
    var p3 := p2 + g2 + [Dash];
    var p4 := p3 + g3 + [Dash];
    assert s == p4 + g4;
    assert s[0..8] == g0 by { assert s[0..8] == p1[0..8]; }
    assert s[9..13] == g1 by { assert s[9..13] == p2[9..13]; }
    assert s[14..18] == g2 by { assert s[14..18] == p3[14..18]; }
    assert s[19..23] == g3 by { assert s[19..23] == p4[19..23]; }
    assert s[24..36] == g4;
    assert id[..4] == id[0..4] && id[10..] == id[10..16];
    assert s[8] == Dash && s[13] == Dash && s[18] == Dash && s[23] == Dash;
    GroupsLayout(s, id);
  }

  /** Every identifier encodes to the canonical form. */
  lemma EncodeHexIsCanonical(id: UUID)
    ensures IsCanonical(EncodeHex(id))
  {
    var s := EncodeHex(id);
    EncodeHexLayout(id);
    forall p | 0 <= p < 36 && !IsDashPosition(p)
      ensures IsLowerHexDigit(s[p])
    {
      var k := ByteOf(p);
      assert PairAt(s, HexStartedIndex[k], id[k]);
    }
  }

  // ---------------------------------------------------------------------------
  // Decoder
  // ---------------------------------------------------------------------------

  /** The three ways a string can fail to parse, in the order they are checked. */
  datatype ParseError = BadLength | MissingDashes | InvalidHex

  /** Every pair offset in `indexes` lies inside `s`. */
  predicate OffsetsFit(s: seq<byte>, indexes: seq<int>) {
    |indexes| == 16 && forall k | 0 <= k < 16 :: 0 <= indexes[k] && indexes[k] + 1 < |s|
  }

  /** The pairs at `indexes[i..]` are all two hex digits. */
  predicate PairsAreHex(s: seq<byte>, indexes: seq<int>, i: nat)
    requires OffsetsFit(s, indexes)
  {
    forall k | i <= k < 16 :: IsHexDigit(s[indexes[k]]) && IsHexDigit(s[indexes[k] + 1])
  }

  /** Bytes `i..` of `uid` are what the pairs at `indexes[i..]` denote. */
  predicate PairsDenote(uid: UUID, s: seq<byte>, indexes: seq<int>, i: nat)
    requires OffsetsFit(s, indexes)
  {
    forall k | i <= k < 16 :: Denotes(uid[k], s[indexes[k]], s[indexes[k] + 1])
  }

  /**
    `parse`: decodes the pairs at `indexes[i..]` into bytes `i..` of `uid`,
    stopping with `Nil` at the first pair that is not two hex digits.
   */
  function ParseFrom(s: seq<byte>, indexes: seq<int>, i: nat, uid: UUID): (r: Outcome<ParseError>)
    requires OffsetsFit(s, indexes) && i <= 16
    ensures r.err.Some? ==> r == Outcome(Nil, Some(InvalidHex))
    ensures r.err.None? <==> PairsAreHex(s, indexes, i)
    ensures r.err.None? ==> forall k | 0 <= k < i :: r.uid[k] == uid[k]
    ensures r.err.None? ==> PairsDenote(r.uid, s, indexes, i)
    decreases 16 - i
  {
    if i == 16 then Outcome(uid, None)
    else
      var start := indexes[i];
      var (v, ok) := HexToByte(s[start], s[start + 1]);
      if !ok then Outcome(Nil, Some(InvalidHex))
      else ParseFrom(s, indexes, i + 1, uid[i := v])
  }

  /** Every pair is two hex digits exactly when every non-separator position is a hex digit. */
  lemma PairsAreHexIffAllHex(s: seq<byte>)
    requires |s| == 36
    ensures OffsetsFit(s, HexStartedIndex)
    ensures PairsAreHex(s, HexStartedIndex, 0) <==> AllHexDigits(s)
  {
    HexStartedIndexLayout();
    if PairsAreHex(s, HexStartedIndex, 0) {
      forall p | 0 <= p < 36 && !IsDashPosition(p)
        ensures IsHexDigit(s[p])
      {
        var k := ByteOf(p);
      }
    }
  }

  /** The call `parse(s, hexStartedIndex)`: the sixteen pairs of a 36-character string. */
  function ParsePairs(s: seq<byte>): (r: Outcome<ParseError>)
    requires |s| == 36
    ensures r.err.Some? ==> r == Outcome(Nil, Some(InvalidHex))
    ensures r.err.None? <==> AllHexDigits(s)
    ensures OffsetsFit(s, HexStartedIndex)
    ensures r.err.None? ==> PairsDenote(r.uid, s, HexStartedIndex, 0)
  {
    PairsAreHexIffAllHex(s);
    ParseFrom(s, HexStartedIndex, 0, Nil)
  }

  /** On 36 characters, the separator check of `Parse` is `HasDashes`. */
  lemma DashCheck(s: seq<byte>)
    requires |s| == 36
    ensures HasDashes(s) <==> s[8] == Dash && s[13] == Dash && s[18] == Dash && s[23] == Dash
  {
  }

  /**
    `Parse`: the length, then the separators, then the sixteen digit pairs are
    checked, and the first failure is reported with `Nil`.
   */
  function Parse(s: seq<byte>): (r: Outcome<ParseError>)
    ensures r.err.Some? ==> r.uid == Nil
    ensures r.err == Some(BadLength) <==> |s| != 36
    ensures r.err == Some(MissingDashes) <==> |s| == 36 && !HasDashes(s)
    ensures r.err == Some(InvalidHex) <==> |s| == 36 && HasDashes(s) && !AllHexDigits(s)
    ensures r.err.None? <==> IsWellFormed(s)
    ensures r.err.None? ==> |s| == 36 && OffsetsFit(s, HexStartedIndex)
    ensures r.err.None? ==> PairsDenote(r.uid, s, HexStartedIndex, 0)
  {
    if |s| != 36 then Outcome(Nil, Some(BadLength))
    else if s[8] != Dash || s[13] != Dash || s[18] != Dash || s[23] != Dash then
      DashCheck(s);
      Outcome(Nil, Some(MissingDashes))
    else
      DashCheck(s);
      ParsePairs(s)
  }

  // ---------------------------------------------------------------------------
  // Round trips
  // ---------------------------------------------------------------------------

  /** Decoding the text of an identifier gives the identifier back, without error. */
  lemma ParseEncodeHex(id: UUID)
    ensures Parse(EncodeHex(id)) == Outcome(id, None)
  {
    var s := EncodeHex(id);
    EncodeHexIsCanonical(id);
    CanonicalIsWellFormed(s);
    EncodeHexLayout(id);
    var r := Parse(s);
    assert r.err.None?;
    forall k | 0 <= k < 16
      ensures r.uid[k] == id[k]
    {
      var p := HexStartedIndex[k];
      assert PairAt(s, p, id[k]);
      assert Denotes(r.uid[k], s[p], s[p + 1]);
      NibbleSplit(r.uid[k], id[k]);
    }
    assert r.uid == id;
  }

  /** `LowerDigit` applied to every byte: the input with its digits in lower case. */
  function LowerHex(s: seq<byte>): (r: seq<byte>)
    ensures |r| == |s|
    ensures forall p | 0 <= p < |s| :: r[p] == LowerDigit(s[p])
  {
    seq(|s|, p requires 0 <= p < |s| => LowerDigit(s[p]))
  }

  /** Byte `k` of what `Parse` accepted is what the `k`-th pair denotes. */
  lemma ParsedPair(s: seq<byte>, k: int)
    requires IsWellFormed(s) && 0 <= k < 16
    ensures |HexStartedIndex| == 16
    ensures Denotes(Parse(s).uid[k], s[HexStartedIndex[k]], s[HexStartedIndex[k] + 1])
  {
  }

  /** Byte `k` of an identifier is encoded at `HexStartedIndex[k]`. */
  lemma EncodeHexPair(id: UUID, k: int)
    requires 0 <= k < 16
    ensures |HexStartedIndex| == 16
    ensures PairAt(EncodeHex(id), HexStartedIndex[k], id[k])
  {
    EncodeHexLayout(id);
  }

  /**
    Re-encoding what the decoder accepted reproduces the input with its digits
    in lower case; the case of the input is the only information lost.
   */
  lemma EncodeHexParse(s: seq<byte>)
    requires IsWellFormed(s)
    ensures Parse(s).err.None?
    ensures EncodeHex(Parse(s).uid) == LowerHex(s)
  {
    var t, l := EncodeHex(Parse(s).uid), LowerHex(s);
    forall p | 0 <= p < 36
      ensures t[p] == l[p]
    {
      ReencodedPosition(s, p);
    }
    assert t == l;
  }

  /** One position of `EncodeHexParse`. */
  lemma ReencodedPosition(s: seq<byte>, p: int)
    requires IsWellFormed(s) && 0 <= p < 36
    ensures EncodeHex(Parse(s).uid)[p] == LowerHex(s)[p]
  {
    var id := Parse(s).uid;
    var t := EncodeHex(id);
    if IsDashPosition(p) {
      EncodeHexLayout(id);
      assert t[p] == Dash == s[p];
    } else {
      var k := ByteOf(p);
      var q := HexStartedIndex[k];
      EncodeHexPair(id, k);
      ParsedPair(s, k);
      if p == q {
        assert DigitValue(t[p]) == id[k] >> 4 == DigitValue(s[p]);
      } else {
        assert DigitValue(t[p]) == id[k] & 0x0f == DigitValue(s[p]);
      }
      LowerDigitsAgree(t[p], LowerDigit(s[p]));
    }
  }

  /** On canonical text the decoder and the encoder are inverse to each other. */
  lemma EncodeHexParseCanonical(s: seq<byte>)
    requires IsCanonical(s)
    ensures Parse(s).err.None? && EncodeHex(Parse(s).uid) == s
  {
    EncodeHexParse(s);
    assert LowerHex(s) == s;
  }

  /** Two identifiers with the same text are the same identifier. */
  lemma EncodeHexInjective(a: UUID, b: UUID)
    requires EncodeHex(a) == EncodeHex(b)
    ensures a == b
  {
    ParseEncodeHex(a);
    ParseEncodeHex(b);
  }

  // ---------------------------------------------------------------------------
  // Fixed values
  // ---------------------------------------------------------------------------

  /**
    `StaticUUID`, the text of the identifier generated from the static reader:
    `00010203-0405-4607-8809-0a0b0c0d0e0f`, as its bytes.
   */
  const StaticUUID: seq<byte> :=
    [0x30, 0x30, 0x30, 0x31, 0x30, 0x32, 0x30, 0x33] + [Dash]
    + [0x30, 0x34, 0x30, 0x35] + [Dash]
    + [0x34, 0x36, 0x30, 0x37] + [Dash]
    + [0x38, 0x38, 0x30, 0x39] + [Dash]
    + [0x30, 0x61, 0x30, 0x62, 0x30, 0x63, 0x30, 0x64, 0x30, 0x65, 0x30, 0x66]

  /** The static reader's bytes, stamped and encoded, give `StaticUUID`, and it decodes back. */
  lemma StaticUuidText()
    ensures NewUuid<()>(Success(StaticBytes)).err.None?
    ensures EncodeHex(NewUuid<()>(Success(StaticBytes)).uid) == StaticUUID
    ensures Parse(StaticUUID) == Outcome(NewUuid<()>(Success(StaticBytes)).uid, None)
  {
    StaticStamp();
    StaticEncodes();
    ParseEncodeHex(StaticBytes[6 := 0x46][8 := 0x88]);
  }

  /** The stamped static bytes, encoded group by group. */
  lemma StaticEncodes()
    ensures EncodeHex(StaticBytes[6 := 0x46][8 := 0x88]) == StaticUUID
  {
    StaticSlices();
    StaticGroups();
    StaticLastGroup();
  }

  /** The five groups of the stamped static bytes. */
  lemma StaticSlices()
    ensures var id := StaticBytes[6 := 0x46][8 := 0x88];
      && id[..4] == [0x00, 0x01, 0x02, 0x03] && id[4..6] == [0x04, 0x05]
      && id[6..8] == [0x46, 0x07] && id[8..10] == [0x88, 0x09]
      && id[10..] == [0x0a, 0x0b, 0x0c, 0x0d, 0x0e, 0x0f]
  {
    var id := StaticBytes[6 := 0x46][8 := 0x88];
    assert id == [0x00, 0x01, 0x02, 0x03, 0x04, 0x05, 0x46, 0x07, 0x88, 0x09, 0x0a, 0x0b, 0x0c, 0x0d, 0x0e, 0x0f];
    assert id[..4] == [id[0], id[1], id[2], id[3]];
    assert id[4..6] == [id[4], id[5]];
    assert id[6..8] == [id[6], id[7]];
    assert id[8..10] == [id[8], id[9]];
    assert id[10..] == [id[10], id[11], id[12], id[13], id[14], id[15]];
  }

  /** The first four digit groups of `StaticUUID`. */
  lemma StaticGroups()
    ensures Encode([0x00, 0x01, 0x02, 0x03]) == [0x30, 0x30, 0x30, 0x31, 0x30, 0x32, 0x30, 0x33]
    ensures Encode([0x04, 0x05]) == [0x30, 0x34, 0x30, 0x35]
    ensures Encode([0x46, 0x07]) == [0x34, 0x36, 0x30, 0x37]
    ensures Encode([0x88, 0x09]) == [0x38, 0x38, 0x30, 0x39]
  {
  }

  /** The twelve-digit last group of `StaticUUID`. */
  lemma StaticLastGroup()
    ensures Encode([0x0a, 0x0b, 0x0c, 0x0d, 0x0e, 0x0f]) ==
      [0x30, 0x61, 0x30, 0x62, 0x30, 0x63, 0x30, 0x64, 0x30, 0x65, 0x30, 0x66]
  {
  }

  /** The bytes of an ASCII string literal, for writing test inputs as text; a character beyond one byte keeps its low eight bits. */
  function Ascii(s: string): (r: seq<byte>)
    ensures |r| == |s|
    ensures forall i | 0 <= i < |s| && s[i] as int < 256 :: r[i] as int == s[i] as int
  {
    seq(|s|, i requires 0 <= i < |s| => (s[i] as int % 256) as bv8)
  }

  /** The bytes of two joined strings are the joined bytes. */
  lemma AsciiAppend(a: string, b: string)
    ensures Ascii(a + b) == Ascii(a) + Ascii(b)
  {
    var l, r := Ascii(a + b), Ascii(a) + Ascii(b);
    forall i | 0 <= i < |l|
      ensures l[i] == r[i]
    {
      if i < |a| {
        assert (a + b)[i] == a[i];
      } else {
        assert (a + b)[i] == b[i - |a|];
      }
    }
  }

  /** `StaticUUID` is the bytes of the literal `StaticUUID` of uuid.go. */
  lemma StaticUuidIsLiteral()
    ensures StaticUUID == Ascii("00010203-0405-4607-8809-0a0b0c0d0e0f")
  {
    var g0, g1, g2, g3, g4 := "00010203", "0405", "4607", "8809", "0a0b0c0d0e0f";
    assert "00010203-0405-4607-8809-0a0b0c0d0e0f" == g0 + "-" + g1 + "-" + g2 + "-" + g3 + "-" + g4;
    AsciiAppend(g0 + "-" + g1 + "-" + g2 + "-" + g3 + "-", g4);
    AsciiAppend(g0 + "-" + g1 + "-" + g2 + "-" + g3, "-");
    AsciiAppend(g0 + "-" + g1 + "-" + g2 + "-", g3);
    AsciiAppend(g0 + "-" + g1 + "-" + g2, "-");
    AsciiAppend(g0 + "-" + g1 + "-", g2);
    AsciiAppend(g0 + "-" + g1, "-");
    AsciiAppend(g0 + "-", g1);
    AsciiAppend(g0, "-");
    StaticLiteralGroups();
  }

  /** The five digit groups and the separator of the literal, as bytes. */
  lemma StaticLiteralGroups()
    ensures Ascii("00010203") == [0x30, 0x30, 0x30, 0x31, 0x30, 0x32, 0x30, 0x33]
    ensures Ascii("-") == [Dash]
    ensures Ascii("0405") == [0x30, 0x34, 0x30, 0x35]
    ensures Ascii("4607") == [0x34, 0x36, 0x30, 0x37]
    ensures Ascii("8809") == [0x38, 0x38, 0x30, 0x39]
    ensures Ascii("0a0b0c0d0e0f") == [0x30, 0x61, 0x30, 0x62, 0x30, 0x63, 0x30, 0x64, 0x30, 0x65, 0x30, 0x66]
  {
  }

  /** Inputs of the wrong length are refused first, whatever their content. */
  lemma ParseRejectsLength()
    ensures Parse(Ascii("")) == Outcome(Nil, Some(BadLength))
    ensures Parse(Ascii("12345678-1234-1234-1234-1234567890")) == Outcome(Nil, Some(BadLength))
    ensures Parse(Ascii("12345678-1234-1234-1234-1234567890123")) == Outcome(Nil, Some(BadLength))
    ensures Parse(Ascii("-12345678-1234-1234-12341234567890120")) == Outcome(Nil, Some(BadLength))
  {
  }

  /** A separator moved off its place is refused before any digit is read. */
  lemma ParseRejectsMovedDash()
    ensures Parse(Ascii("123456781234-1234-1234-1234567890120")) == Outcome(Nil, Some(MissingDashes))
  {
    var s := Ascii("123456781234-1234-1234-1234567890120");
    assert s[8] as int == '1' as int;
  }

  /** Thirty-six digits without separators are refused for the separators. */
  lemma ParseRejectsNoDashes()
    ensures Parse(Ascii("aaaaaaaaaaaaaaaaaaaaaaaaaaaaaaaaaaaa")) == Outcome(Nil, Some(MissingDashes))
  {
    var s := Ascii("aaaaaaaaaaaaaaaaaaaaaaaaaaaaaaaaaaaa");
    assert s[8] as int == 'a' as int;
  }

  /** A letter outside `a`..`f` in the last group is refused as invalid hex. */
  lemma ParseRejectsBadDigit()
    ensures Parse(Ascii("12345678-1234-1234-1234-12345678901g")) == Outcome(Nil, Some(InvalidHex))
  {
    var s := Ascii("12345678-1234-1234-1234-12345678901g");
    assert s[8] == s[13] == s[18] == s[23] == Dash;
    DashCheck(s);
    assert s[35] as int == 'g' as int;
    assert !IsHexDigit(s[35]);
  }

  /** Separators in every position are refused as invalid hex. */
  lemma ParseRejectsAllDashes()
    ensures Parse(Ascii("------------------------------------")) == Outcome(Nil, Some(InvalidHex))
  {
    var s := Ascii("------------------------------------");
    assert s[8] == s[13] == s[18] == s[23] == Dash;
    DashCheck(s);
    assert !IsHexDigit(s[0]);
  }
}
