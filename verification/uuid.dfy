/**
  The identifier itself (section 4.1 of RFC 4122): a 16-byte value, the nil
  sentinel, the version-4 validity check and the generator that stamps the
  version and variant bits (section 4.4 of RFC 4122) onto sixteen bytes read
  from an entropy source.
 */
module Uuid {
  import opened Wrappers
  import opened Hex

  /** A 128-bit identifier, byte 0 first. */
  type UUID = u: seq<byte> | |u| == 16
    witness [0, 0, 0, 0, 0, 0, 0, 0, 0, 0, 0, 0, 0, 0, 0, 0]

  /** The all-zero identifier, returned alongside every error. */
  const Nil: UUID := [0, 0, 0, 0, 0, 0, 0, 0, 0, 0, 0, 0, 0, 0, 0, 0]

  /**
    A Go `(UUID, error)` result pair. Every operation of the model that can
    fail returns `Nil` in `uid` whenever `err` is set.
   */
  datatype Outcome<+E> = Outcome(uid: UUID, err: Option<E>)

  /** The version field: the high nibble of byte 6 (section 4.1.3 of RFC 4122). */
  function Version(u: UUID): byte { u[6] >> 4 }

  /** The variant field: the top two bits of byte 8 (section 4.1.1 of RFC 4122). */
  function Variant(u: UUID): byte { u[8] >> 6 }

  /**
    Whether `uid` is acceptable as a version-4 identifier: the nil value is,
    by convention; any other value needs version 4 and variant `10`.
   */
  predicate IsV4(uid: UUID) {
    uid == Nil || (Version(uid) == 4 && Variant(uid) == 2)
  }

  /**
    Overwrites the version nibble with `0100` and the variant bits with `10`,
    keeping every other bit of the sixteen bytes.
   */
  function StampV4(raw: UUID): (u: UUID)
    ensures Version(u) == 4 && u[6] & 0x0f == raw[6] & 0x0f
    ensures Variant(u) == 2 && u[8] & 0x3f == raw[8] & 0x3f
    ensures forall i | 0 <= i < 16 && i != 6 && i != 8 :: u[i] == raw[i]
    ensures u != Nil && IsV4(u)
  {
    raw[6 := (raw[6] & 0x0f) | 0x40][8 := (raw[8] & 0x3f) | 0x80]
  }

  /**
    `fillUUID`: the outcome of reading sixteen bytes from the entropy source.
    The read either delivers all sixteen bytes or fails with the error
    `io.ReadFull` reports (the reader's own, or `io.ErrUnexpectedEOF` after a
    partial read); a failure yields `Nil` and that error, never a partially
    filled value.
   */
  function FillUuid<E>(read: Result<UUID, E>): (r: Outcome<E>)
    ensures r.err.Some? <==> read.Failure?
    ensures read.Failure? ==> r.uid == Nil && r.err == Some(read.error)
    ensures read.Success? ==> r.uid == read.value
  {
    match read
    case Failure(e) => Outcome(Nil, Some(e))
    case Success(bytes) => Outcome(bytes, None)
  }

  /**
    `V4Generator.NewUUID`, given what its reader produced: a failed read is
    passed on with `Nil`; sixteen read bytes are stamped as version 4.
   */
  function NewUuid<E>(read: Result<UUID, E>): (r: Outcome<E>)
    ensures read.Failure? ==> r == Outcome(Nil, Some(read.error))
    ensures read.Success? ==> r.err.None? && r.uid == StampV4(read.value)
    ensures r.err.None? ==> r.uid != Nil && IsV4(r.uid)
  {
    var filled := FillUuid(read);
    if filled.err.Some? then Outcome(Nil, filled.err)
    else Outcome(StampV4(filled.uid), filled.err)
  }

  /** The sixteen bytes `StaticReader` supplies: 0x00, 0x01, ..., 0x0f. */
  const StaticBytes: UUID :=
    [0x00, 0x01, 0x02, 0x03, 0x04, 0x05, 0x06, 0x07, 0x08, 0x09, 0x0a, 0x0b, 0x0c, 0x0d, 0x0e, 0x0f]

  // ---------------------------------------------------------------------------
  // Properties of stamping and of the validity check
  // ---------------------------------------------------------------------------

  /**
    Stamping is pinned down by its bit-level effect: `u` is the stamp of
    `raw` exactly when `u` has version 4 and variant `10`, keeps the low
    nibble of byte 6 and the low six bits of byte 8, and agrees with `raw`
    on the other fourteen bytes.
   */
  lemma StampV4Characterization(raw: UUID, u: UUID)
    ensures u == StampV4(raw) <==>
      && Version(u) == 4 && u[6] & 0x0f == raw[6] & 0x0f
      && Variant(u) == 2 && u[8] & 0x3f == raw[8] & 0x3f
      && forall i | 0 <= i < 16 && i != 6 && i != 8 :: u[i] == raw[i]
  {
    var s := StampV4(raw);
    if && Version(u) == 4 && u[6] & 0x0f == raw[6] & 0x0f
       && Variant(u) == 2 && u[8] & 0x3f == raw[8] & 0x3f
       && forall i | 0 <= i < 16 && i != 6 && i != 8 :: u[i] == raw[i]
    {
      NibbleSplit(u[6], s[6]);
      TopBitsSplit(u[8], s[8]);
      assert forall i | 0 <= i < 16 :: u[i] == s[i];
    }
  }

  /** A byte is determined by its two nibbles. */
  lemma NibbleSplit(a: byte, b: byte)
    requires a >> 4 == b >> 4 && a & 0x0f == b & 0x0f
    ensures a == b
  {
  }

  /** A byte is determined by its top two bits and its low six bits. */
  lemma TopBitsSplit(a: byte, b: byte)
    requires a >> 6 == b >> 6 && a & 0x3f == b & 0x3f
    ensures a == b
  {
  }

  /** Stamping twice is stamping once. */
  lemma StampV4Idempotent(raw: UUID)
    ensures StampV4(StampV4(raw)) == StampV4(raw)
  {
    var s := StampV4(raw);
    StampV4Characterization(s, s);
  }

  /**
    The validity check accepts exactly the nil value and the values that
    stamping leaves unchanged, that is, the values the generator can return.
   */
  lemma IsV4IffStampFixed(u: UUID)
    ensures IsV4(u) <==> u == Nil || StampV4(u) == u
  {
    StampV4Characterization(u, u);
  }

  /** Every non-nil value the check accepts is produced by the generator from some read. */
  lemma IsV4IffGenerated(u: UUID)
    ensures IsV4(u) <==> u == Nil || exists raw: UUID :: NewUuid<()>(Success(raw)).uid == u
  {
    IsV4IffStampFixed(u);
    if IsV4(u) && u != Nil {
      assert NewUuid<()>(Success(u)).uid == u;
    }
  }

  /** The cases the validity check is expected to decide. */
  lemma IsV4Examples()
    ensures IsV4(Nil)
    ensures !IsV4(Nil[6 := 0x30])
    ensures !IsV4(Nil[6 := 0x40][8 := 0x70])
    ensures IsV4(NewUuid<()>(Success(StaticBytes)).uid)
  {
    assert Nil[6 := 0x30] != Nil by { assert Nil[6 := 0x30][6] != Nil[6]; }
    assert Nil[6 := 0x40][8 := 0x70] != Nil by { assert Nil[6 := 0x40][8 := 0x70][6] != Nil[6]; }
  }

  /** The static reader's bytes stamp to the value behind `StaticUUID`, and that value is fixed. */
  lemma StaticStamp()
    ensures NewUuid<()>(Success(StaticBytes)) ==
      Outcome(StaticBytes[6 := 0x46][8 := 0x88], None)
  {
    var r := StampV4(StaticBytes);
    StampV4Characterization(StaticBytes, StaticBytes[6 := 0x46][8 := 0x88]);
  }
}
