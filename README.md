# marcr field 006 in Dafny

A model of the additional material characteristics of a MARC 21 bibliographic record
(field 006) as the `marcr` library represents them in
`src/additional_material_characteristics.rs`: the record enum
`AdditionalMaterialCharacteristics`, with a `Book`, a `ComputerFile` and a `Map` arm, and the
fifteen code tables its fields take their values from.

Each code table is a Rust enum with one-byte discriminants (`Projection`: two-byte ones) that
derives `FromPrimitive` and `IntoPrimitive`. The model gives each table a module in
`code_tables.dfy` or `projection.dfy`; `bytes.dfy` holds the byte type and the code alphabet:

- `Encode` is the discriminant (`IntoPrimitive`).
- `Decode` is total (`FromPrimitive`): a listed byte gives its member, and every other byte gives the
  `#[default]` member `NotCoded`, whose discriminant is '|'.
- `IsListed` says that a byte is some member's discriminant.
- Lemmas prove, per table:
  - decode inverts encode;
  - encode is injective;
  - re-encoding a decoded byte is exact on listed bytes and yields '|' on all others;
  - '#' and '|' decode to different members where the table lists '#'; where it does not,
    '#' falls back to `NotCoded` like '|'.

A `Projection` discriminant is `(hi as u16) << 8 | lo as u16` for its two-letter code, which
the model writes as `hi * 0x100 + lo` (the two parts share no bit) and proves to be a
bijection between byte pairs and 16-bit keys.

The record module (`material_characteristics.dfy`) models the record enum, with fixed-length
sequences for the `[T; 4]` and `[T; 2]` arrays. The library itself has no field parser. The
model adds a positional codec: `Decode(kind, field)` and `Encode(record)` over an 18-byte
field. It uses exactly the positions that the documentation of each record field states, and
it proves three things about that codec:

- Decoding an encoded record gives the record back.
- Re-encoding a decoded field reproduces it exactly when it is canonical.
- Every encoded byte is in the code alphabet.

Bytes are integers 0..255 and keys integers 0..65535, so no arithmetic wraps.

## Model

| member | source | states |
|---|---|---|
| Illustrations.Encode | src/additional_material_characteristics.rs:97-133 | the discriminant of every `Illustration` member is a byte of the code alphabet (lowercase letter, digit, '#' or a vertical bar) |
| Illustrations.DecodeSound | src/additional_material_characteristics.rs:97-133 | decoding any byte yields either `NotCoded` (the default member, line 131) or the member whose discriminant is that byte |
| Illustrations.DecodeEncode | src/additional_material_characteristics.rs:97-133 | decoding a member's discriminant gives that member back |
| Illustrations.EncodeInjective | src/additional_material_characteristics.rs:97-133 | two `Illustration` members with the same discriminant are the same member |
| Illustrations.EncodeDecode | src/additional_material_characteristics.rs:97-133 | re-encoding a decoded byte gives it back when some member has it as discriminant; any other byte decodes to `NotCoded` and re-encodes as a vertical bar |
| Illustrations.BlankAndNotCoded | src/additional_material_characteristics.rs:99-132 | '#' decodes to `None`, a different member from what a vertical bar decodes to; a space is not listed and decodes to `NotCoded` |
| TargetAudiences.Encode | src/additional_material_characteristics.rs:138-160 | the discriminant of every `TargetAudience` member is a byte of the code alphabet (lowercase letter, digit, '#' or a vertical bar) |
| TargetAudiences.DecodeSound | src/additional_material_characteristics.rs:138-160 | decoding any byte yields either `NotCoded` (the default member, line 158) or the member whose discriminant is that byte |
| TargetAudiences.DecodeEncode | src/additional_material_characteristics.rs:138-160 | decoding a member's discriminant gives that member back |
| TargetAudiences.EncodeInjective | src/additional_material_characteristics.rs:138-160 | two `TargetAudience` members with the same discriminant are the same member |
| TargetAudiences.EncodeDecode | src/additional_material_characteristics.rs:138-160 | re-encoding a decoded byte gives it back when some member has it as discriminant; any other byte decodes to `NotCoded` and re-encodes as a vertical bar |
| TargetAudiences.BlankAndNotCoded | src/additional_material_characteristics.rs:140-159 | '#' decodes to `Unknown`, a different member from what a vertical bar decodes to; a space is not listed and decodes to `NotCoded` |
| FormsOfItem.Encode | src/additional_material_characteristics.rs:165-190 | the discriminant of every `FormOfItem` member is a byte of the code alphabet (lowercase letter, digit, '#' or a vertical bar) |
| FormsOfItem.DecodeSound | src/additional_material_characteristics.rs:165-190 | decoding any byte yields either `NotCoded` (the default member, line 188) or the member whose discriminant is that byte |
| FormsOfItem.DecodeEncode | src/additional_material_characteristics.rs:165-190 | decoding a member's discriminant gives that member back |
| FormsOfItem.EncodeInjective | src/additional_material_characteristics.rs:165-190 | two `FormOfItem` members with the same discriminant are the same member |
| FormsOfItem.EncodeDecode | src/additional_material_characteristics.rs:165-190 | re-encoding a decoded byte gives it back when some member has it as discriminant; any other byte decodes to `NotCoded` and re-encodes as a vertical bar |
| FormsOfItem.BlankAndNotCoded | src/additional_material_characteristics.rs:167-189 | '#' decodes to `None`, a different member from what a vertical bar decodes to; a space is not listed and decodes to `NotCoded` |
| NaturesOfContents.Encode | src/additional_material_characteristics.rs:195-255 | the discriminant of every `NatureOfContents` member is a byte of the code alphabet (lowercase letter, digit, '#' or a vertical bar) |
| NaturesOfContents.DecodeSound | src/additional_material_characteristics.rs:195-255 | decoding any byte yields either `NotCoded` (the default member, line 253) or the member whose discriminant is that byte |
| NaturesOfContents.DecodeEncode | src/additional_material_characteristics.rs:195-255 | decoding a member's discriminant gives that member back |
| NaturesOfContents.EncodeInjective | src/additional_material_characteristics.rs:195-255 | two `NatureOfContents` members with the same discriminant are the same member |
| NaturesOfContents.EncodeDecode | src/additional_material_characteristics.rs:195-255 | re-encoding a decoded byte gives it back when some member has it as discriminant; any other byte decodes to `NotCoded` and re-encodes as a vertical bar |
| NaturesOfContents.BlankAndNotCoded | src/additional_material_characteristics.rs:197-254 | '#' decodes to `None`, a different member from what a vertical bar decodes to; a space is not listed and decodes to `NotCoded` |
| GovernmentPublications.Encode | src/additional_material_characteristics.rs:260-286 | the discriminant of every `GovernmentPublication` member is a byte of the code alphabet (lowercase letter, digit, '#' or a vertical bar) |
| GovernmentPublications.DecodeSound | src/additional_material_characteristics.rs:260-286 | decoding any byte yields either `NotCoded` (the default member, line 284) or the member whose discriminant is that byte |
| GovernmentPublications.DecodeEncode | src/additional_material_characteristics.rs:260-286 | decoding a member's discriminant gives that member back |
| GovernmentPublications.EncodeInjective | src/additional_material_characteristics.rs:260-286 | two `GovernmentPublication` members with the same discriminant are the same member |
| GovernmentPublications.EncodeDecode | src/additional_material_characteristics.rs:260-286 | re-encoding a decoded byte gives it back when some member has it as discriminant; any other byte decodes to `NotCoded` and re-encodes as a vertical bar |
| GovernmentPublications.BlankAndNotCoded | src/additional_material_characteristics.rs:262-285 | '#' decodes to `None`, a different member from what a vertical bar decodes to; a space is not listed and decodes to `NotCoded` |
| ConferencePublications.Encode | src/additional_material_characteristics.rs:291-299 | the discriminant of every `ConferencePublication` member is a byte of the code alphabet (lowercase letter, digit, '#' or a vertical bar) |
| ConferencePublications.DecodeSound | src/additional_material_characteristics.rs:291-299 | decoding any byte yields either `NotCoded` (the default member, line 297) or the member whose discriminant is that byte |
| ConferencePublications.DecodeEncode | src/additional_material_characteristics.rs:291-299 | decoding a member's discriminant gives that member back |
| ConferencePublications.EncodeInjective | src/additional_material_characteristics.rs:291-299 | two `ConferencePublication` members with the same discriminant are the same member |
| ConferencePublications.EncodeDecode | src/additional_material_characteristics.rs:291-299 | re-encoding a decoded byte gives it back when some member has it as discriminant; any other byte decodes to `NotCoded` and re-encodes as a vertical bar |
| ConferencePublications.BlankIsNotCoded | src/additional_material_characteristics.rs:291-299 | the table lists no '#': '#' and a space are not listed and both decode to `NotCoded` |
| Festschrifts.Encode | src/additional_material_characteristics.rs:305-313 | the discriminant of every `Festschrift` member is a byte of the code alphabet (lowercase letter, digit, '#' or a vertical bar) |
| Festschrifts.DecodeSound | src/additional_material_characteristics.rs:305-313 | decoding any byte yields either `NotCoded` (the default member, line 311) or the member whose discriminant is that byte |
| Festschrifts.DecodeEncode | src/additional_material_characteristics.rs:305-313 | decoding a member's discriminant gives that member back |
| Festschrifts.EncodeInjective | src/additional_material_characteristics.rs:305-313 | two `Festschrift` members with the same discriminant are the same member |
| Festschrifts.EncodeDecode | src/additional_material_characteristics.rs:305-313 | re-encoding a decoded byte gives it back when some member has it as discriminant; any other byte decodes to `NotCoded` and re-encodes as a vertical bar |
| Festschrifts.BlankIsNotCoded | src/additional_material_characteristics.rs:305-313 | the table lists no '#': '#' and a space are not listed and both decode to `NotCoded` |
| Indexes.Encode | src/additional_material_characteristics.rs:318-326 | the discriminant of every `Index` member is a byte of the code alphabet (lowercase letter, digit, '#' or a vertical bar) |
| Indexes.DecodeSound | src/additional_material_characteristics.rs:318-326 | decoding any byte yields either `NotCoded` (the default member, line 324) or the member whose discriminant is that byte |
| Indexes.DecodeEncode | src/additional_material_characteristics.rs:318-326 | decoding a member's discriminant gives that member back |
| Indexes.EncodeInjective | src/additional_material_characteristics.rs:318-326 | two `Index` members with the same discriminant are the same member |
| Indexes.EncodeDecode | src/additional_material_characteristics.rs:318-326 | re-encoding a decoded byte gives it back when some member has it as discriminant; any other byte decodes to `NotCoded` and re-encodes as a vertical bar |
| Indexes.BlankIsNotCoded | src/additional_material_characteristics.rs:318-326 | the table lists no '#': '#' and a space are not listed and both decode to `NotCoded` |
| LiteraryForms.Encode | src/additional_material_characteristics.rs:331-359 | the discriminant of every `LiteraryForm` member is a byte of the code alphabet (lowercase letter, digit, '#' or a vertical bar) |
| LiteraryForms.DecodeSound | src/additional_material_characteristics.rs:331-359 | decoding any byte yields either `NotCoded` (the default member, line 357) or the member whose discriminant is that byte |
| LiteraryForms.DecodeEncode | src/additional_material_characteristics.rs:331-359 | decoding a member's discriminant gives that member back |
| LiteraryForms.EncodeInjective | src/additional_material_characteristics.rs:331-359 | two `LiteraryForm` members with the same discriminant are the same member |
| LiteraryForms.EncodeDecode | src/additional_material_characteristics.rs:331-359 | re-encoding a decoded byte gives it back when some member has it as discriminant; any other byte decodes to `NotCoded` and re-encodes as a vertical bar |
| LiteraryForms.BlankIsNotCoded | src/additional_material_characteristics.rs:331-359 | the table lists no '#': '#' and a space are not listed and both decode to `NotCoded` |
| Biographies.Encode | src/additional_material_characteristics.rs:364-378 | the discriminant of every `Biography` member is a byte of the code alphabet (lowercase letter, digit, '#' or a vertical bar) |
| Biographies.DecodeSound | src/additional_material_characteristics.rs:364-378 | decoding any byte yields either `NotCoded` (the default member, line 376) or the member whose discriminant is that byte |
| Biographies.DecodeEncode | src/additional_material_characteristics.rs:364-378 | decoding a member's discriminant gives that member back |
| Biographies.EncodeInjective | src/additional_material_characteristics.rs:364-378 | two `Biography` members with the same discriminant are the same member |
| Biographies.EncodeDecode | src/additional_material_characteristics.rs:364-378 | re-encoding a decoded byte gives it back when some member has it as discriminant; any other byte decodes to `NotCoded` and re-encodes as a vertical bar |
| Biographies.BlankAndNotCoded | src/additional_material_characteristics.rs:366-377 | '#' decodes to `None`, a different member from what a vertical bar decodes to; a space is not listed and decodes to `NotCoded` |
| FileTypes.Encode | src/additional_material_characteristics.rs:383-413 | the discriminant of every `FileType` member is a byte of the code alphabet (lowercase letter, digit, '#' or a vertical bar) |
| FileTypes.DecodeSound | src/additional_material_characteristics.rs:383-413 | decoding any byte yields either `NotCoded` (the default member, line 411) or the member whose discriminant is that byte |
| FileTypes.DecodeEncode | src/additional_material_characteristics.rs:383-413 | decoding a member's discriminant gives that member back |
| FileTypes.EncodeInjective | src/additional_material_characteristics.rs:383-413 | two `FileType` members with the same discriminant are the same member |
| FileTypes.EncodeDecode | src/additional_material_characteristics.rs:383-413 | re-encoding a decoded byte gives it back when some member has it as discriminant; any other byte decodes to `NotCoded` and re-encodes as a vertical bar |
| FileTypes.BlankIsNotCoded | src/additional_material_characteristics.rs:383-413 | the table lists no '#': '#' and a space are not listed and both decode to `NotCoded` |
| Reliefs.Encode | src/additional_material_characteristics.rs:418-448 | the discriminant of every `Relief` member is a byte of the code alphabet (lowercase letter, digit, '#' or a vertical bar) |
| Reliefs.DecodeSound | src/additional_material_characteristics.rs:418-448 | decoding any byte yields either `NotCoded` (the default member, line 446) or the member whose discriminant is that byte |
| Reliefs.DecodeEncode | src/additional_material_characteristics.rs:418-448 | decoding a member's discriminant gives that member back |
| Reliefs.EncodeInjective | src/additional_material_characteristics.rs:418-448 | two `Relief` members with the same discriminant are the same member |
| Reliefs.EncodeDecode | src/additional_material_characteristics.rs:418-448 | re-encoding a decoded byte gives it back when some member has it as discriminant; any other byte decodes to `NotCoded` and re-encodes as a vertical bar |
| Reliefs.BlankAndNotCoded | src/additional_material_characteristics.rs:420-447 | '#' decodes to `None`, a different member from what a vertical bar decodes to; a space is not listed and decodes to `NotCoded` |
| CartographicTypes.Encode | src/additional_material_characteristics.rs:558-580 | the discriminant of every `CartographicType` member is a byte of the code alphabet (lowercase letter, digit, '#' or a vertical bar) |
| CartographicTypes.DecodeSound | src/additional_material_characteristics.rs:558-580 | decoding any byte yields either `NotCoded` (the default member, line 578) or the member whose discriminant is that byte |
| CartographicTypes.DecodeEncode | src/additional_material_characteristics.rs:558-580 | decoding a member's discriminant gives that member back |
| CartographicTypes.EncodeInjective | src/additional_material_characteristics.rs:558-580 | two `CartographicType` members with the same discriminant are the same member |
| CartographicTypes.EncodeDecode | src/additional_material_characteristics.rs:558-580 | re-encoding a decoded byte gives it back when some member has it as discriminant; any other byte decodes to `NotCoded` and re-encodes as a vertical bar |
| CartographicTypes.BlankIsNotCoded | src/additional_material_characteristics.rs:558-580 | the table lists no '#': '#' and a space are not listed and both decode to `NotCoded` |
| SpecialFormats.Encode | src/additional_material_characteristics.rs:585-609 | the discriminant of every `SpecialFormatCharacteristics` member is a byte of the code alphabet (lowercase letter, digit, '#' or a vertical bar) |
| SpecialFormats.DecodeSound | src/additional_material_characteristics.rs:585-609 | decoding any byte yields either `NotCoded` (the default member, line 607) or the member whose discriminant is that byte |
| SpecialFormats.DecodeEncode | src/additional_material_characteristics.rs:585-609 | decoding a member's discriminant gives that member back |
| SpecialFormats.EncodeInjective | src/additional_material_characteristics.rs:585-609 | two `SpecialFormatCharacteristics` members with the same discriminant are the same member |
| SpecialFormats.EncodeDecode | src/additional_material_characteristics.rs:585-609 | re-encoding a decoded byte gives it back when some member has it as discriminant; any other byte decodes to `NotCoded` and re-encodes as a vertical bar |
| SpecialFormats.BlankAndNotCoded | src/additional_material_characteristics.rs:587-608 | '#' decodes to `None`, a different member from what a vertical bar decodes to; a space is not listed and decodes to `NotCoded` |
| Projections.UnpackPack | src/additional_material_characteristics.rs:455-457 | unpacking the key `hi * 0x100 + lo` (the shift-and-or of the two bytes) recovers both bytes |
| Projections.PackUnpack | src/additional_material_characteristics.rs:455-457 | every 16-bit key is the packing of the pair it unpacks to |
| Projections.PackInjective | src/additional_material_characteristics.rs:455-457 | two different byte pairs never pack to the same key |
| Projections.Characters | src/additional_material_characteristics.rs:455-552 | both code characters of every projection are in the code alphabet |
| Projections.Encode | src/additional_material_characteristics.rs:455-552 | each projection's discriminant unpacks to the two characters of its code |
| Projections.DecodeAzimuthalSound | src/additional_material_characteristics.rs:459-481 | a pair starting with 'a' decodes to `NotCoded` or to the azimuthal projection with exactly that code |
| Projections.DecodeCylindricalSound | src/additional_material_characteristics.rs:483-515 | a pair starting with 'b' decodes to `NotCoded` or to the cylindrical projection with exactly that code |
| Projections.DecodeConicSound | src/additional_material_characteristics.rs:517-529 | a pair starting with 'c' decodes to `NotCoded` or to the conic projection with exactly that code |
| Projections.DecodeOtherProjectionSound | src/additional_material_characteristics.rs:531-547 | a pair starting with 'd' decodes to `NotCoded` or to the other projection with exactly that code |
| Projections.DecodeCharactersSound | src/additional_material_characteristics.rs:455-552 | any character pair decodes to `NotCoded` or to the projection whose code is that pair |
| Projections.DecodeSound | src/additional_material_characteristics.rs:455-552 | any 16-bit key decodes to `NotCoded` (the default, line 551) or to the projection whose discriminant is that key |
| Projections.DecodeCharactersOfCharacters | src/additional_material_characteristics.rs:455-552 | the code characters of every projection decode back to it |
| Projections.DecodeEncode | src/additional_material_characteristics.rs:455-552 | decoding a projection's discriminant gives that projection back |
| Projections.EncodeInjective | src/additional_material_characteristics.rs:455-552 | no two projections share a discriminant |
| Projections.EncodeDecode | src/additional_material_characteristics.rs:455-552 | re-encoding a decoded key gives it back when it is a listed discriminant; any other key decodes to `NotCoded` and re-encodes as two vertical bars |
| Projections.BlankAndNotCoded | src/additional_material_characteristics.rs:456-552 | "##" decodes to `NotSpecified` and two vertical bars to `NotCoded`, two different members; "a#" and two spaces are not listed and decode to `NotCoded` |
| MaterialCharacteristics.Decode | src/additional_material_characteristics.rs:10-92 | decoding a field gives a record of the requested kind; a book's biography, which has no documented position, is `NotCoded` |
| MaterialCharacteristics.DecodeEncode | src/additional_material_characteristics.rs:10-92 | decoding the field of any record gives the record back (for a book, one whose biography is `NotCoded`) |
| MaterialCharacteristics.DecodeEncodeUpToBiography | src/additional_material_characteristics.rs:10-92 | decoding the field of any record gives the record back, except that a book's biography (no documented position, lines 46-47) comes back `NotCoded` |
| MaterialCharacteristics.DecodeEncodeBook | src/additional_material_characteristics.rs:12-48 | the book arm of the record round trip: manuscript flag at 0 ('a' false, 't' true), illustrations at 1-4, audience 5, form 6, contents 7-10, then 11, 12, 13, 14 and 16 |
| MaterialCharacteristics.DecodeEncodeComputerFile | src/additional_material_characteristics.rs:50-63 | the computer file arm of the record round trip: positions 5, 6, 9 and 11 |
| MaterialCharacteristics.DecodeEncodeMap | src/additional_material_characteristics.rs:65-91 | the map arm of the record round trip: manuscript flag at 0 ('e' false, 'f' true), relief 1-4, projection 5-6, then 8, 11, 12, 14 and special formats 16-17 |
| MaterialCharacteristics.EncodeIsCanonicalAt | src/additional_material_characteristics.rs:10-92 | each position of an encoded field holds a listed code of the table documented there, a manuscript letter at 0, or a vertical bar where the kind uses no position |
| MaterialCharacteristics.EncodeIsCanonical | src/additional_material_characteristics.rs:10-92 | every encoded field is canonical for its record's kind |
| MaterialCharacteristics.EncodeAtDecodeBook | src/additional_material_characteristics.rs:12-48 | a canonical book position survives decode and re-encode |
| MaterialCharacteristics.EncodeAtDecodeComputerFile | src/additional_material_characteristics.rs:50-63 | a canonical computer file position survives decode and re-encode |
| MaterialCharacteristics.EncodeAtDecodeMap | src/additional_material_characteristics.rs:65-91 | a canonical map position (the projection pair included) survives decode and re-encode |
| MaterialCharacteristics.EncodeDecodeCanonical | src/additional_material_characteristics.rs:10-92 | decoding and re-encoding a canonical field reproduces it |
| MaterialCharacteristics.EncodeDecode | src/additional_material_characteristics.rs:10-92 | decode then encode reproduces a field if and only if it is canonical for the kind, and always yields a canonical field |
| MaterialCharacteristics.DecodeIdempotent | src/additional_material_characteristics.rs:10-92 | decoding the re-encoding of a decoded field gives the same record, and re-encoding it again the same field |
| MaterialCharacteristics.EncodeAtIsCode | src/additional_material_characteristics.rs:97-609 | every byte a record writes at a position is in the code alphabet |
| MaterialCharacteristics.EncodeAlphabet | src/additional_material_characteristics.rs:97-609 | an encoded field is spelled only in lowercase letters, digits, '#' and a vertical bar |
| MaterialCharacteristics.DecodeLocal | src/additional_material_characteristics.rs:10-92 | decoding depends on positions 0-17 only: fields that agree there decode alike |
| MaterialCharacteristics.DecodeIgnoresTrailing | src/additional_material_characteristics.rs:10-92 | bytes past position 17 do not change the decoded record |
| MaterialCharacteristics.DecodeShortIsPadded | src/additional_material_characteristics.rs:10-92 | a short field decodes as if padded to 18 positions with a vertical bar |
| MaterialCharacteristics.DecodeEmptyBook | src/additional_material_characteristics.rs:12-48 | an empty field decodes to a book with every field `NotCoded` and the manuscript flag off |
| MaterialCharacteristics.DecodeEmptyComputerFile | src/additional_material_characteristics.rs:50-63 | an empty field decodes to a computer file with every field `NotCoded` |
| MaterialCharacteristics.DecodeEmptyMap | src/additional_material_characteristics.rs:65-91 | an empty field decodes to a map with every field `NotCoded` and the manuscript flag off |
| MaterialCharacteristics.BookExampleDecodes | src/additional_material_characteristics.rs:12-48 | the book field BookField (`tab##j#b####001`, a vertical bar, `1`, a vertical bar) decodes to a manuscript, illustrated with maps, for juveniles, with bibliographies, indexed fiction |
| MaterialCharacteristics.BookRecordEncodesAt | src/additional_material_characteristics.rs:12-48 | that book record writes each byte of that field |
| MaterialCharacteristics.BookExampleRoundTrip | src/additional_material_characteristics.rs:12-48 | that book field survives decode and re-encode unchanged |
| MaterialCharacteristics.MapExampleDecodes | src/additional_material_characteristics.rs:65-91 | the map field MapField (`fa###bd`, a vertical bar, `a`, two vertical bars, `f#`, a vertical bar, `0`, a vertical bar, `e#`) decodes to a manuscript single map with contours, Mercator projection, federal, unindexed, manuscript special format |
| MaterialCharacteristics.MapRecordEncodesAt | src/additional_material_characteristics.rs:65-91 | that map record writes each byte of that field |
| MaterialCharacteristics.MapExampleRoundTrip | src/additional_material_characteristics.rs:65-91 | that map field survives decode and re-encode unchanged |
| MaterialCharacteristics.BookUnlistedIllustration | src/additional_material_characteristics.rs:97-133 | an unlisted '9' in a book's illustrations decodes to `NotCoded` and is written back as a vertical bar |
| MaterialCharacteristics.MapUnlistedProjection | src/additional_material_characteristics.rs:455-552 | the unlisted projection pair "a#" decodes to `NotCoded` and is written back as two vertical bars |

## Left out

- `src/lib.rs` (the `Marc` struct of strings and a `chrono` date, and a trivial test) is not part of this model: it has no logic.
- The `num_enum` procedural macros are modelled only by what they derive: a match with a default arm (`Decode`) and the discriminant (`Encode`). The `PartialEq` and `Eq` derives are Dafny's structural equality; the `Debug` derive (formatting) is not modelled.
- The library has no field-level codec, no record framing and no way to tell which kind of material a field describes. The model's `Decode` takes the kind as a parameter, and its codec uses only the documented positions.
- Field 006 also has forms for music, visual materials, mixed materials and continuing resources. The library's record has only the three arms modelled here.
- MaterialCharacteristics.DecodeEncode: requires a book's biography to be `NotCoded`, because `Biography` has no documented position (lines 46-47) and so is neither written nor read. DecodeEncodeUpToBiography states the round trip for every record, the biography reset to `NotCoded`.
- MaterialCharacteristics.Decode: the manuscript flag is documented only for 'a'/'t' (book) and 'e'/'f' (map). Any byte other than 't' (book) or 'f' (map) is read as `false`, and only 'a'/'t' and 'e'/'f' count as canonical.
- MaterialCharacteristics.Decode: positions the documentation assigns to nothing are ignored on decode and written as '|'. These are:
  - book 15 and 17;
  - computer file 0-4, 7, 8, 10 and 12-17;
  - map 7, 9, 10, 13 and 15.

  A field shorter than 18 bytes reads its missing positions as '|'.
- The manuscript letters follow the library's documentation (line 14: a = false, t = true; line 67: e = false, f = true). Some descriptions of this record read a book's 'a' as a manuscript; the model does not.
