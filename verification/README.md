# uuid: RFC 4122 identifiers, as a verified Dafny model

This project models the `uuid` Go package (`uuid.go`). The package has three parts:

- **Text codec.** It converts a 16-byte identifier to and from its canonical 36-character text,
  `xxxxxxxx-xxxx-xxxx-xxxx-xxxxxxxxxxxx` (section 3 of RFC 4122).
- **Version-4 stamping.** The generator reads 16 bytes from an entropy source. It then sets the
  version nibble to `0100` (section 4.1.3) and the variant bits to `10` (section 4.1.1), as
  section 4.4 of RFC 4122 prescribes.
- **Validity check.** `IsV4` accepts the nil identifier and every value that carries those two
  bit fields.

The model has three modules, plus a small helper module:

- `Hex` (`hex.dfy`) works on digits. It holds the decoder's 256-entry lookup table `hexValues`,
  written as its sixteen rows, and `hexToByte`. It also holds the lower-case pair encoding that
  `encodeHex` takes from Go's `encoding/hex`.
- `Uuid` (`uuid.dfy`) holds the identifier type, `Nil`, `IsV4`, the `fillUUID` failure path and
  the stamping done by `V4Generator.NewUUID`.
- `Codec` (`codec.dfy`) holds the `hexStartedIndex` offset table, the encoder
  (`UUID.String` / `encodeHex`) and the decoder (`Parse` / `parse`).
- `Wrappers` (`wrappers.dfy`) provides `Option` and `Result`.

Modelling choices:

- A byte is a `bv8`. A Go string is modelled as the sequence of its bytes, because `len(s)` and
  `s[i]` in the decoder count and index bytes.
- A UUID is a 16-byte sequence.
- A Go `(UUID, error)` pair is an `Outcome(uid, err)`. This makes "the nil identifier is returned
  alongside every error" a statable property.
- The decoder's three error messages become three error kinds: `BadLength`, `MissingDashes` and
  `InvalidHex`. They are checked in that order.
- The entropy read is an input value. It is either sixteen bytes or the error `io.ReadFull`
  reports: the reader's own, or `io.ErrUnexpectedEOF` after a partial read.
- The loop of `parse` is a recursion over the byte index (`Codec.ParseFrom`).

What is proved:

- **Layout.** The encoder always produces the canonical form. Byte `k` sits, high nibble first,
  at `hexStartedIndex[k]`. The sixteen offsets tile exactly the 32 non-separator positions.
- **Decoder contract.** The decoder rejects for exactly the three stated reasons, in order. It
  returns `Nil` with every error. It accepts exactly the well-formed strings and decodes every
  pair to its value.
- **Round trips.** `Parse(String(u)) == (u, nil)` holds for every `u`. Re-encoding a parsed
  string gives the input with its digits in lower case.
- **Stamping.** Stamping is pinned down bit by bit. It is idempotent. `IsV4` accepts exactly
  `Nil` and the fixed points of stamping, which are exactly the values the generator can return.
- **Fixed cases.** The concrete cases of the package's tests hold. One example is the static
  reader's value encoding to `StaticUUID`.

One of the package's test inputs is not what its label suggests:

- The second input labelled "invalid dashes position" (uuid_test.go:186) is 37 characters long.
  The decoder therefore refuses it for its length, before any separator is looked at
  (`Codec.ParseRejectsLength`).

## Model

| member | source | states |
|---|---|---|
| `Hex.DigitValue` | uuid.go:139-157 | A hex digit of either case has a value below 16 |
| `Hex.HexValuesAgree` | uuid.go:139-157 | The 256-entry table maps every digit `0-9`, `a-f`, `A-F` to its value and every other byte to 0xff, which no digit value equals |
| `Hex.FlattenIndex` | uuid.go:140-157 | Entry `j` of row `k` of the table, written sixteen per line, is entry `16 * k + j` of the flat table |
| `Hex.HexToByte` | uuid.go:204-209 | The flag is set exactly when both characters are hex digits of either case; then the byte is `16 * value(x1) + value(x2)`, with the high nibble from `x1` and the low nibble from `x2` |
| `Hex.EncodeByte` | uuid.go:58-69 | A byte is written as two lower-case digits whose values are its high and low nibble |
| `Hex.Encode` | uuid.go:60-68 | `hex.Encode` doubles the length and writes source byte `i` as the digit pair at offset `2 * i` |
| `Hex.LowerDigit` | uuid.go:144-147 | The table gives `A-F` the values of `a-f`: folding a digit to lower case keeps its value, and every byte but `A-F` is left alone |
| `Hex.DecodeEncodeByte` | uuid.go:204-209 | `hexToByte` of the encoding of `v` is `(v, true)` |
| `Hex.EncodeDecodeByte` | uuid.go:204-209 | A lower-case digit pair decodes without error to the byte that encodes back to the same pair |
| `Hex.LowerDigitsAgree` | uuid.go:58-69 | Lower-case digits are determined by their value, so the encoding is unique |
| `Uuid.StampV4` | uuid.go:134-135 | Stamping yields version 4, keeping the low nibble of byte 6. It yields variant `10`, keeping the low six bits of byte 8. The other fourteen bytes are unchanged, and the result is non-nil and passes `IsV4` |
| `Uuid.FillUuid` | uuid.go:74-83 | A read fails exactly when the fill reports an error; then the identifier is `Nil` and the error is the one the read reported; otherwise the sixteen bytes read are returned |
| `Uuid.NewUuid` | uuid.go:128-137 | A failed read gives `Nil` with the read's error; a successful read gives no error and the stamped bytes, which pass `IsV4` |
| `Uuid.StampV4Characterization` | uuid.go:134-135 | `u` is the stamp of `raw` if and only if `u` has version 4, variant `10`, `raw`'s low bits of bytes 6 and 8, and `raw`'s other fourteen bytes |
| `Uuid.StampV4Idempotent` | uuid.go:134-135 | Stamping a stamped value changes nothing |
| `Uuid.IsV4IffStampFixed` | uuid.go:17-32 | `IsV4(u)` holds exactly when `u` is `Nil` or stamping leaves `u` unchanged |
| `Uuid.IsV4IffGenerated` | uuid.go:17-32 | `IsV4(u)` holds exactly when `u` is `Nil` or the generator returns `u` for some read |
| `Uuid.IsV4Examples` | uuid_test.go:120-155 | `Nil` passes; byte 6 = 0x30 fails; byte 6 = 0x40 with byte 8 = 0x70 fails; the static reader's generated value passes |
| `Uuid.StaticStamp` | uuid.go:97-102 | The static reader's bytes 0x00..0x0f are generated as themselves with byte 6 = 0x46 and byte 8 = 0x88, without error |
| `Codec.ByteOf` | uuid.go:159-168 | Every non-separator position below 36 is one of the two digits of some byte `k < 16` |
| `Codec.HexStartedIndexLayout` | uuid.go:159-168 | The sixteen pairs lie inside the 36 characters and off the separators, in increasing order without overlap, and each pair's two positions belong to that pair's byte |
| `Codec.HexPositionsArePairs` | uuid.go:159-168 | A position is not a separator if and only if it is the first or second digit of one of the sixteen pairs |
| `Codec.HexStartedIndexClosedForm` | uuid.go:161-168 | The offset of byte `k` is `2 * k` plus one for each separator before it (after bytes 4, 6, 8, 10) |
| `Codec.CanonicalIsWellFormed` | uuid.go:170-185 | The canonical form is accepted by the decoder's format |
| `Codec.EncodeHex` | uuid.go:51-69 | The text of an identifier has 36 characters |
| `Codec.EncodeHexLayout` | uuid.go:58-69 | The separators are at 8, 13, 18 and 23, and byte `k` is written as its lower-case pair at `hexStartedIndex[k]` |
| `Codec.EncodeHexIsCanonical` | uuid.go:51-69 | The encoder always produces 36 characters with separators in place and lower-case `0-9a-f` everywhere else |
| `Codec.ParseFrom` | uuid.go:187-202 | Every error comes with `Nil`; no error occurs exactly when every remaining pair is two hex digits; then bytes already filled are kept and each remaining byte is what its pair denotes |
| `Codec.PairsAreHexIffAllHex` | uuid.go:188-199 | Reading the sixteen pairs inspects every non-separator position, so all pairs are hex exactly when all 32 digit positions are |
| `Codec.ParsePairs` | uuid.go:184 | On 36 characters, `parse` fails only with `Nil` and an invalid-hex error, succeeds exactly when all 32 digit positions hold hex digits, and then decodes every pair |
| `Codec.DashCheck` | uuid.go:180-182 | The four single-position tests are the same as separators everywhere they belong |
| `Codec.Parse` | uuid.go:170-185 | Errors always come with `Nil`. The length error occurs exactly when the length is not 36. The separator error occurs exactly when the length is right but a separator is missing. The hex error occurs exactly when both are right but a digit is not hex. Success occurs exactly on well-formed text, and then byte `k` is what pair `k` denotes |
| `Codec.ParseEncodeHex` | uuid_test.go:157-173 | Parsing the text of any identifier returns that identifier without error |
| `Codec.EncodeHexParse` | uuid.go:170-209 | Re-encoding whatever the decoder accepts reproduces the input with its digits in lower case |
| `Codec.EncodeHexParseCanonical` | uuid.go:170-209 | On canonical text the decoder and the encoder are inverse to each other |
| `Codec.EncodeHexInjective` | uuid.go:51-69 | Distinct identifiers have distinct texts |
| `Codec.StaticUuidText` | uuid_test.go:112-118 | The static reader's generated value encodes to `StaticUUID` (uuid.go:92), which parses back to it |
| `Codec.StaticUuidIsLiteral` | uuid.go:91-92 | The byte form of `StaticUUID` used by the model is exactly the ASCII text of the package's constant |
| `Codec.StaticEncodes` | uuid.go:91-92 | `StaticUUID` is the text of the static bytes with version and variant stamped |
| `Codec.ParseRejectsLength` | uuid_test.go:180-186 | The empty, 34-character, 37-character and shifted 37-character inputs are refused for their length, with `Nil` |
| `Codec.ParseRejectsMovedDash` | uuid_test.go:185 | A separator moved from position 8 is refused for the separators, with `Nil` |
| `Codec.ParseRejectsNoDashes` | uuid_test.go:187 | 36 letters `a` are refused for the separators, with `Nil` |
| `Codec.ParseRejectsBadDigit` | uuid_test.go:183 | A `g` in the last group is refused as invalid hex, with `Nil` |
| `Codec.ParseRejectsAllDashes` | uuid_test.go:184 | 36 separators are refused as invalid hex, with `Nil` |

## Left out

- Entropy sources are not modelled: `SecureReader` (`crypto/rand`), `StaticReader`'s `bytes.Reader`, `ErrorsReader`, and the `io.ReadFull` mechanics of `fillUUID`. They are I/O and foreign library calls. The read is an input that is either sixteen bytes or the error `io.ReadFull` reports: the reader's own, or `io.ErrUnexpectedEOF` after a partial read.
- `defaultGenerator`, `sync.Once`, `init` and `New` are not modelled. They are global state and initialisation glue.
- The `ReaderFactory` indirection and the `Generator` interface are not modelled. `NewUuid` is the generator's behaviour given what the factory's reader produced.
- Random draws are not modelled as unique, because that is probabilistic and cannot be proved.
- The text of the `fmt.Errorf` messages is not modelled. Errors are the three kinds `BadLength`, `MissingDashes` and `InvalidHex`, and the error of the read is passed on unchanged.
- `encoding/hex.Encode` is modelled by its documented behaviour: two lower-case digits per byte, high nibble first. Its source is not part of this model.
- `Codec.ParseFrom` requires every offset in `indexes` to address a pair inside the string. Go would panic on an out-of-range index, and the package only calls `parse` with `hexStartedIndex` on 36-character strings.
- Go `string` values are modelled as bytes. Test inputs are string literals whose characters are all ASCII.
