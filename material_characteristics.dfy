/**
 * The additional material characteristics of a MARC 21 bibliographic record (field 006):
 * a record with one shape per kind of material, whose fields are values of the code tables.
 *
 * The record type is the one the library defines. The positional codec below (Decode and
 * Encode of an 18-byte field) is not code of the library: it follows only the positions that
 * the documentation of each record field states, and it leaves every other position alone.
 */
module MaterialCharacteristics {
  import opened Bytes
  import Illustrations
  import TargetAudiences
  import FormsOfItem
  import NaturesOfContents
  import GovernmentPublications
  import ConferencePublications
  import Festschrifts
  import Indexes
  import LiteraryForms
  import Biographies
  import FileTypes
  import Reliefs
  import Projections
  import CartographicTypes
  import SpecialFormats

  /** Illustration codes of a book, positions 1-4. */
  type FourIllustrations = s: seq<Illustrations.Illustration> | |s| == 4
    witness [Illustrations.NotCoded, Illustrations.NotCoded, Illustrations.NotCoded, Illustrations.NotCoded]

  /** Nature-of-contents codes of a book, positions 7-10. */
  type FourNaturesOfContents = s: seq<NaturesOfContents.NatureOfContents> | |s| == 4
    witness [NaturesOfContents.NotCoded, NaturesOfContents.NotCoded, NaturesOfContents.NotCoded, NaturesOfContents.NotCoded]

  /** Relief codes of a map, positions 1-4. */
  type FourReliefs = s: seq<Reliefs.Relief> | |s| == 4
    witness [Reliefs.NotCoded, Reliefs.NotCoded, Reliefs.NotCoded, Reliefs.NotCoded]

  /** Special format codes of a map, positions 16-17. */
  type TwoSpecialFormats = s: seq<SpecialFormats.SpecialFormatCharacteristics> | |s| == 2
    witness [SpecialFormats.NotCoded, SpecialFormats.NotCoded]

  /** The record: one arm per kind of material, every field always present. */
  datatype AdditionalMaterialCharacteristics =
    | Book(
        manuscript: bool,
        illustrations: FourIllustrations,
        targetAudience: TargetAudiences.TargetAudience,
        formOfItem: FormsOfItem.FormOfItem,
        natureOfContents: FourNaturesOfContents,
        governmentPublication: GovernmentPublications.GovernmentPublication,
        conferencePublication: ConferencePublications.ConferencePublication,
        festschrift: Festschrifts.Festschrift,
        index: Indexes.Index,
        literaryForm: LiteraryForms.LiteraryForm,
        biography: Biographies.Biography)
    | ComputerFile(
        targetAudience: TargetAudiences.TargetAudience,
        formOfItem: FormsOfItem.FormOfItem,
        fileType: FileTypes.FileType,
        governmentPublication: GovernmentPublications.GovernmentPublication)
    | Map(
        manuscript: bool,
        relief: FourReliefs,
        projection: Projections.Projection,
        cartographicType: CartographicTypes.CartographicType,
        governmentPublication: GovernmentPublications.GovernmentPublication,
        formOfItem: FormsOfItem.FormOfItem,
        index: Indexes.Index,
        specialFormatCharacteristics: TwoSpecialFormats)

  /** Which arm a record has; the caller supplies it when decoding. */
  datatype MaterialKind = BookKind | ComputerFileKind | MapKind

  function KindOf(r: AdditionalMaterialCharacteristics): MaterialKind {
    match r
    case Book(_, _, _, _, _, _, _, _, _, _, _) => BookKind
    case ComputerFile(_, _, _, _) => ComputerFileKind
    case Map(_, _, _, _, _, _, _, _) => MapKind
  }

  /** Positions 0-17: the highest documented position is 17 (a map's special format characteristics). */
  const FieldWidth: nat := 18

  /** Position 0 of a book: 'a' for a text that is not a manuscript, 't' for a manuscript. */
  const BookTextCode: byte := 'a' as byte
  const BookManuscriptCode: byte := 't' as byte

  /** Position 0 of a map: 'e' for a map that is not a manuscript, 'f' for a manuscript. */
  const MapPrintedCode: byte := 'e' as byte
  const MapManuscriptCode: byte := 'f' as byte

  /** The byte at position `i`, read as '|' when the field is too short to have one. */
  function At(f: seq<byte>, i: nat): byte {
    if i < |f| then f[i] else NotCodedByte
  }

  /** The codes of `n` consecutive positions starting at `start`, each through `decode`. */
  function DecodeRun<T>(f: seq<byte>, start: nat, n: nat, decode: byte -> T): (s: seq<T>)
    ensures |s| == n
    ensures forall k :: 0 <= k < n ==> s[k] == decode(At(f, start + k))
  {
    seq(n, k requires 0 <= k < n => decode(At(f, start + k)))
  }

  /**
   * Decodes a field of the given kind. Total: every byte of every position goes through its
   * table's decode, missing positions read as '|', and bytes past position 17 are ignored.
   * Only the manuscript letter ('t' or 'f') sets the manuscript flag. A book's biography has
   * no documented position, so it is always NotCoded.
   */
  function Decode(kind: MaterialKind, f: seq<byte>): (r: AdditionalMaterialCharacteristics)
    ensures KindOf(r) == kind
    ensures r.Book? ==> r.biography == Biographies.NotCoded
  {
    match kind
    case BookKind =>
      Book(
        At(f, 0) == BookManuscriptCode,
        DecodeRun(f, 1, 4, Illustrations.Decode),
        TargetAudiences.Decode(At(f, 5)),
        FormsOfItem.Decode(At(f, 6)),
        DecodeRun(f, 7, 4, NaturesOfContents.Decode),
        GovernmentPublications.Decode(At(f, 11)),
        ConferencePublications.Decode(At(f, 12)),
        Festschrifts.Decode(At(f, 13)),
        Indexes.Decode(At(f, 14)),
        LiteraryForms.Decode(At(f, 16)),
        Biographies.NotCoded)
    case ComputerFileKind =>
      ComputerFile(
        TargetAudiences.Decode(At(f, 5)),
        FormsOfItem.Decode(At(f, 6)),
        FileTypes.Decode(At(f, 9)),
        GovernmentPublications.Decode(At(f, 11)))
    case MapKind =>
      Map(
        At(f, 0) == MapManuscriptCode,
        DecodeRun(f, 1, 4, Reliefs.Decode),
        Projections.DecodePair(At(f, 5), At(f, 6)),
        CartographicTypes.Decode(At(f, 8)),
        GovernmentPublications.Decode(At(f, 11)),
        FormsOfItem.Decode(At(f, 12)),
        Indexes.Decode(At(f, 14)),
        DecodeRun(f, 16, 2, SpecialFormats.Decode))
  }

  /**
   * The byte a record puts at position `i`: the code of the field documented at that
   * position, and '|' at every position its kind does not use. A book's biography has no
   * position and is written nowhere.
   */
  function EncodeAt(r: AdditionalMaterialCharacteristics, i: nat): byte
    requires i < FieldWidth
  {
    match r
    case Book(manuscript, il, ta, fi, nc, gp, cp, fs, ix, lf, _) =>
      if i == 0 then (if manuscript then BookManuscriptCode else BookTextCode)
      else if i <= 4 then Illustrations.Encode(il[i - 1])
      else if i == 5 then TargetAudiences.Encode(ta)
      else if i == 6 then FormsOfItem.Encode(fi)
      else if i <= 10 then NaturesOfContents.Encode(nc[i - 7])
      else if i == 11 then GovernmentPublications.Encode(gp)
      else if i == 12 then ConferencePublications.Encode(cp)
      else if i == 13 then Festschrifts.Encode(fs)
      else if i == 14 then Indexes.Encode(ix)
      else if i == 16 then LiteraryForms.Encode(lf)
      else NotCodedByte
    case ComputerFile(ta, fi, ft, gp) =>
      if i == 5 then TargetAudiences.Encode(ta)
      else if i == 6 then FormsOfItem.Encode(fi)
      else if i == 9 then FileTypes.Encode(ft)
      else if i == 11 then GovernmentPublications.Encode(gp)
      else NotCodedByte
    case Map(manuscript, rl, pr, ct, gp, fi, ix, sf) =>
      if i == 0 then (if manuscript then MapManuscriptCode else MapPrintedCode)
      else if i <= 4 then Reliefs.Encode(rl[i - 1])
      else if i == 5 then Projections.Unpack(Projections.Encode(pr)).0
      else if i == 6 then Projections.Unpack(Projections.Encode(pr)).1
      else if i == 8 then CartographicTypes.Encode(ct)
      else if i == 11 then GovernmentPublications.Encode(gp)
      else if i == 12 then FormsOfItem.Encode(fi)
      else if i == 14 then Indexes.Encode(ix)
      else if i >= 16 then SpecialFormats.Encode(sf[i - 16])
      else NotCodedByte
  }

  /** Encodes a record as its 18-byte field, position by position. */
  function Encode(r: AdditionalMaterialCharacteristics): (f: seq<byte>)
    ensures |f| == FieldWidth
    ensures forall i :: 0 <= i < FieldWidth ==> f[i] == EncodeAt(r, i)
  {
    seq(FieldWidth, i requires 0 <= i < FieldWidth => EncodeAt(r, i))
  }

  /**
   * Position `i` of a full-width field is in canonical form for the kind: it holds a listed
   * code of the table documented there, a manuscript letter at position 0 where the kind has
   * the flag, and '|' where the kind uses no position.
   */
  ghost predicate IsCanonicalAt(kind: MaterialKind, f: seq<byte>, i: nat)
    requires |f| == FieldWidth && i < FieldWidth
  {
    match kind
    case BookKind =>
      if i == 0 then f[i] == BookTextCode || f[i] == BookManuscriptCode
      else if i <= 4 then Illustrations.IsListed(f[i])
      else if i == 5 then TargetAudiences.IsListed(f[i])
      else if i == 6 then FormsOfItem.IsListed(f[i])
      else if i <= 10 then NaturesOfContents.IsListed(f[i])
      else if i == 11 then GovernmentPublications.IsListed(f[i])
      else if i == 12 then ConferencePublications.IsListed(f[i])
      else if i == 13 then Festschrifts.IsListed(f[i])
      else if i == 14 then Indexes.IsListed(f[i])
      else if i == 16 then LiteraryForms.IsListed(f[i])
      else f[i] == NotCodedByte
    case ComputerFileKind =>
      if i == 5 then TargetAudiences.IsListed(f[i])
      else if i == 6 then FormsOfItem.IsListed(f[i])
      else if i == 9 then FileTypes.IsListed(f[i])
      else if i == 11 then GovernmentPublications.IsListed(f[i])
      else f[i] == NotCodedByte
    case MapKind =>
      if i == 0 then f[i] == MapPrintedCode || f[i] == MapManuscriptCode
      else if i <= 4 then Reliefs.IsListed(f[i])
      else if i <= 6 then Projections.IsListed(Projections.Pack(f[5], f[6]))
      else if i == 8 then CartographicTypes.IsListed(f[i])
      else if i == 11 then GovernmentPublications.IsListed(f[i])
      else if i == 12 then FormsOfItem.IsListed(f[i])
      else if i == 14 then Indexes.IsListed(f[i])
      else if i >= 16 then SpecialFormats.IsListed(f[i])
      else f[i] == NotCodedByte
  }

  /** A field in canonical form for its kind: exactly 18 bytes, each position canonical. */
  ghost predicate IsCanonical(kind: MaterialKind, f: seq<byte>) {
    |f| == FieldWidth && forall i :: 0 <= i < FieldWidth ==> IsCanonicalAt(kind, f, i)
  }

  /**
   * Decoding an encoded record gives the record back. The one exception is a book's
   * biography, which has no position: only records whose biography is NotCoded survive.
   */
  lemma DecodeEncode(r: AdditionalMaterialCharacteristics)
    requires r.Book? ==> r.biography == Biographies.NotCoded
    ensures Decode(KindOf(r), Encode(r)) == r
  {
    match r
    case Book(_, _, _, _, _, _, _, _, _, _, _) => DecodeEncodeBook(r);
    case ComputerFile(_, _, _, _) => DecodeEncodeComputerFile(r);
    case Map(_, _, _, _, _, _, _, _) => DecodeEncodeMap(r);
  }

  /**
   * Every record survives the round trip except a book's biography, which has no position
   * and so always comes back NotCoded.
   */
  lemma DecodeEncodeUpToBiography(r: AdditionalMaterialCharacteristics)
    ensures Decode(KindOf(r), Encode(r)) == (if r.Book? then r.(biography := Biographies.NotCoded) else r)
  {
    if r.Book? {
      var r' := r.(biography := Biographies.NotCoded);
      forall i | 0 <= i < FieldWidth ensures Encode(r')[i] == Encode(r)[i] {
      }
      assert Encode(r') == Encode(r);
      DecodeEncode(r');
    } else {
      DecodeEncode(r);
    }
  }

  /** The book case of DecodeEncode. */
  lemma DecodeEncodeBook(r: AdditionalMaterialCharacteristics)
    requires r.Book? && r.biography == Biographies.NotCoded
    ensures Decode(BookKind, Encode(r)) == r
  {
    var f := Encode(r);
    var d := Decode(BookKind, f);
    forall k | 0 <= k < 4
      ensures d.illustrations[k] == r.illustrations[k] && d.natureOfContents[k] == r.natureOfContents[k]
    {
      Illustrations.DecodeEncode(r.illustrations[k]);
      NaturesOfContents.DecodeEncode(r.natureOfContents[k]);
    }
    TargetAudiences.DecodeEncode(r.targetAudience);
    FormsOfItem.DecodeEncode(r.formOfItem);
    GovernmentPublications.DecodeEncode(r.governmentPublication);
    ConferencePublications.DecodeEncode(r.conferencePublication);
    Festschrifts.DecodeEncode(r.festschrift);
    Indexes.DecodeEncode(r.index);
    LiteraryForms.DecodeEncode(r.literaryForm);
  }

  /** The computer file case of DecodeEncode. */
  lemma DecodeEncodeComputerFile(r: AdditionalMaterialCharacteristics)
    requires r.ComputerFile?
    ensures Decode(ComputerFileKind, Encode(r)) == r
  {
    TargetAudiences.DecodeEncode(r.targetAudience);
    FormsOfItem.DecodeEncode(r.formOfItem);
    FileTypes.DecodeEncode(r.fileType);
    GovernmentPublications.DecodeEncode(r.governmentPublication);
  }

  /** The map case of DecodeEncode. */
  lemma DecodeEncodeMap(r: AdditionalMaterialCharacteristics)
    requires r.Map?
    ensures Decode(MapKind, Encode(r)) == r
  {
    var f := Encode(r);
    var d := Decode(MapKind, f);
    forall k | 0 <= k < 4 ensures d.relief[k] == r.relief[k] {
      Reliefs.DecodeEncode(r.relief[k]);
    }
    forall k | 0 <= k < 2 ensures d.specialFormatCharacteristics[k] == r.specialFormatCharacteristics[k] {
      SpecialFormats.DecodeEncode(r.specialFormatCharacteristics[k]);
    }
    Projections.DecodeEncode(r.projection);
    Projections.PackUnpack(Projections.Encode(r.projection));
    CartographicTypes.DecodeEncode(r.cartographicType);
    GovernmentPublications.DecodeEncode(r.governmentPublication);
    FormsOfItem.DecodeEncode(r.formOfItem);
    Indexes.DecodeEncode(r.index);
  }

  /** Every position of an encoded field is canonical for its record's kind. */
  lemma EncodeIsCanonicalAt(r: AdditionalMaterialCharacteristics, i: nat)
    requires i < FieldWidth
    ensures IsCanonicalAt(KindOf(r), Encode(r), i)
  {
    var f := Encode(r);
    match r
    case Book(_, il, ta, fi, nc, gp, cp, fs, ix, lf, _) =>
      if 1 <= i <= 4 {
        assert Illustrations.Encode(il[i - 1]) == f[i];
      } else if 7 <= i <= 10 {
        assert NaturesOfContents.Encode(nc[i - 7]) == f[i];
      } else {
        assert TargetAudiences.Encode(ta) == f[5] && FormsOfItem.Encode(fi) == f[6];
        assert GovernmentPublications.Encode(gp) == f[11] && ConferencePublications.Encode(cp) == f[12];
        assert Festschrifts.Encode(fs) == f[13] && Indexes.Encode(ix) == f[14];
        assert LiteraryForms.Encode(lf) == f[16];
      }
    case ComputerFile(ta, fi, ft, gp) =>
      assert TargetAudiences.Encode(ta) == f[5] && FormsOfItem.Encode(fi) == f[6];
      assert FileTypes.Encode(ft) == f[9] && GovernmentPublications.Encode(gp) == f[11];
    case Map(_, rl, pr, ct, gp, fi, ix, sf) =>
      if 1 <= i <= 4 {
        assert Reliefs.Encode(rl[i - 1]) == f[i];
      } else if 16 <= i {
        assert SpecialFormats.Encode(sf[i - 16]) == f[i];
      } else {
        Projections.PackUnpack(Projections.Encode(pr));
        assert Projections.Encode(pr) == Projections.Pack(f[5], f[6]);
        assert CartographicTypes.Encode(ct) == f[8] && GovernmentPublications.Encode(gp) == f[11];
        assert FormsOfItem.Encode(fi) == f[12] && Indexes.Encode(ix) == f[14];
      }
  }

  /** Every encoded field is canonical for its record's kind. */
  lemma EncodeIsCanonical(r: AdditionalMaterialCharacteristics)
    ensures IsCanonical(KindOf(r), Encode(r))
  {
    forall i | 0 <= i < FieldWidth ensures IsCanonicalAt(KindOf(r), Encode(r), i) {
      EncodeIsCanonicalAt(r, i);
    }
  }

  /** Each position of a canonical book field is reproduced by decoding and re-encoding. */
  lemma EncodeAtDecodeBook(f: seq<byte>, i: nat)
    requires |f| == FieldWidth && i < FieldWidth && IsCanonicalAt(BookKind, f, i)
    ensures EncodeAt(Decode(BookKind, f), i) == f[i]
  {
    if i == 0 {
    } else if i <= 4 {
      Illustrations.EncodeDecode(f[i]);
    } else if i == 5 {
      TargetAudiences.EncodeDecode(f[i]);
    } else if i == 6 {
      FormsOfItem.EncodeDecode(f[i]);
    } else if i <= 10 {
      NaturesOfContents.EncodeDecode(f[i]);
    } else if i == 11 {
      GovernmentPublications.EncodeDecode(f[i]);
    } else if i == 12 {
      ConferencePublications.EncodeDecode(f[i]);
    } else if i == 13 {
      Festschrifts.EncodeDecode(f[i]);
    } else if i == 14 {
      Indexes.EncodeDecode(f[i]);
    } else if i == 16 {
      LiteraryForms.EncodeDecode(f[i]);
    }
  }

  /** Each position of a canonical computer-file field is reproduced by decoding and re-encoding. */
  lemma EncodeAtDecodeComputerFile(f: seq<byte>, i: nat)
    requires |f| == FieldWidth && i < FieldWidth && IsCanonicalAt(ComputerFileKind, f, i)
    ensures EncodeAt(Decode(ComputerFileKind, f), i) == f[i]
  {
    if i == 5 {
      TargetAudiences.EncodeDecode(f[i]);
    } else if i == 6 {
      FormsOfItem.EncodeDecode(f[i]);
    } else if i == 9 {
      FileTypes.EncodeDecode(f[i]);
    } else if i == 11 {
      GovernmentPublications.EncodeDecode(f[i]);
    }
  }

  /** Each position of a canonical map field is reproduced by decoding and re-encoding. */
  lemma EncodeAtDecodeMap(f: seq<byte>, i: nat)
    requires |f| == FieldWidth && i < FieldWidth && IsCanonicalAt(MapKind, f, i)
    ensures EncodeAt(Decode(MapKind, f), i) == f[i]
  {
    if i == 0 {
    } else if i <= 4 {
      Reliefs.EncodeDecode(f[i]);
    } else if i <= 6 {
      Projections.EncodeDecode(Projections.Pack(f[5], f[6]));
      Projections.UnpackPack(f[5], f[6]);
    } else if i == 8 {
      CartographicTypes.EncodeDecode(f[i]);
    } else if i == 11 {
      GovernmentPublications.EncodeDecode(f[i]);
    } else if i == 12 {
      FormsOfItem.EncodeDecode(f[i]);
    } else if i == 14 {
      Indexes.EncodeDecode(f[i]);
    } else if i >= 16 {
      SpecialFormats.EncodeDecode(f[i]);
    }
  }

  /** Decoding and re-encoding a canonical field reproduces it. */
  lemma EncodeDecodeCanonical(kind: MaterialKind, f: seq<byte>)
    requires IsCanonical(kind, f)
    ensures Encode(Decode(kind, f)) == f
  {
    var e := Encode(Decode(kind, f));
    forall i | 0 <= i < FieldWidth ensures e[i] == f[i] {
      match kind
      case BookKind => EncodeAtDecodeBook(f, i);
      case ComputerFileKind => EncodeAtDecodeComputerFile(f, i);
      case MapKind => EncodeAtDecodeMap(f, i);
    }
  }

  /**
   * Re-encoding a decoded field reproduces it exactly when it is canonical for the kind;
   * any other field comes back as a different, canonical one.
   */
  lemma EncodeDecode(kind: MaterialKind, f: seq<byte>)
    ensures Encode(Decode(kind, f)) == f <==> IsCanonical(kind, f)
    ensures IsCanonical(kind, Encode(Decode(kind, f)))
  {
    EncodeIsCanonical(Decode(kind, f));
    if IsCanonical(kind, f) {
      EncodeDecodeCanonical(kind, f);
    }
  }

  /** Decoding then re-decoding changes nothing: a decoded record is a fixed point of the round trip. */
  lemma DecodeIdempotent(kind: MaterialKind, f: seq<byte>)
    ensures Decode(kind, Encode(Decode(kind, f))) == Decode(kind, f)
    ensures Encode(Decode(kind, Encode(Decode(kind, f)))) == Encode(Decode(kind, f))
  {
    DecodeEncode(Decode(kind, f));
  }

  /** Every byte a record puts at a position is in the code alphabet. */
  lemma EncodeAtIsCode(r: AdditionalMaterialCharacteristics, i: nat)
    requires i < FieldWidth
    ensures IsCodeByte(EncodeAt(r, i))
  {
    match r
    case Map(_, _, pr, _, _, _, _, _) =>
      if i == 5 || i == 6 {
        var c := Projections.Characters(pr);
        assert (c.0 as byte) as char == c.0 && (c.1 as byte) as char == c.1;
      }
    case _ =>
  }

  /** An encoded field is spelled in lowercase letters, digits, '#' and '|' only. */
  lemma EncodeAlphabet(r: AdditionalMaterialCharacteristics)
    ensures forall i :: 0 <= i < |Encode(r)| ==> IsCodeByte(Encode(r)[i])
  {
    forall i | 0 <= i < |Encode(r)| ensures IsCodeByte(Encode(r)[i]) {
      EncodeAtIsCode(r, i);
    }
  }

  /** Decoding reads positions 0-17 and nothing else. */
  lemma DecodeLocal(kind: MaterialKind, f: seq<byte>, g: seq<byte>)
    requires forall i :: 0 <= i < FieldWidth ==> At(f, i) == At(g, i)
    ensures Decode(kind, f) == Decode(kind, g)
  {
  }

  /** Bytes past position 17 are ignored. */
  lemma DecodeIgnoresTrailing(kind: MaterialKind, f: seq<byte>, extra: seq<byte>)
    requires |f| >= FieldWidth
    ensures Decode(kind, f + extra) == Decode(kind, f)
  {
    forall i | 0 <= i < FieldWidth ensures At(f + extra, i) == At(f, i) {
    }
    DecodeLocal(kind, f + extra, f);
  }

  /** A short field decodes as if it were padded to full width with '|'. */
  lemma DecodeShortIsPadded(kind: MaterialKind, f: seq<byte>)
    requires |f| < FieldWidth
    ensures Decode(kind, f) == Decode(kind, f + seq(FieldWidth - |f|, _ => NotCodedByte))
  {
    var g := f + seq(FieldWidth - |f|, _ => NotCodedByte);
    forall i | 0 <= i < FieldWidth ensures At(f, i) == At(g, i) {
    }
    DecodeLocal(kind, f, g);
  }

  /** An empty book field decodes to a book with nothing coded and the manuscript flag off. */
  lemma DecodeEmptyBook()
    ensures Decode(BookKind, []) == Book(
      false,
      [Illustrations.NotCoded, Illustrations.NotCoded, Illustrations.NotCoded, Illustrations.NotCoded],
      TargetAudiences.NotCoded, FormsOfItem.NotCoded,
      [NaturesOfContents.NotCoded, NaturesOfContents.NotCoded, NaturesOfContents.NotCoded, NaturesOfContents.NotCoded],
      GovernmentPublications.NotCoded, ConferencePublications.NotCoded, Festschrifts.NotCoded,
      Indexes.NotCoded, LiteraryForms.NotCoded, Biographies.NotCoded)
  {
    Illustrations.DecodeEncode(Illustrations.NotCoded);
    NaturesOfContents.DecodeEncode(NaturesOfContents.NotCoded);
  }

  /** An empty computer file field decodes to a computer file with nothing coded. */
  lemma DecodeEmptyComputerFile()
    ensures Decode(ComputerFileKind, []) == ComputerFile(
      TargetAudiences.NotCoded, FormsOfItem.NotCoded, FileTypes.NotCoded, GovernmentPublications.NotCoded)
  {
  }

  /** An empty map field decodes to a map with nothing coded and the manuscript flag off. */
  lemma DecodeEmptyMap()
    ensures Decode(MapKind, []) == Map(
      false,
      [Reliefs.NotCoded, Reliefs.NotCoded, Reliefs.NotCoded, Reliefs.NotCoded],
      Projections.NotCoded, CartographicTypes.NotCoded, GovernmentPublications.NotCoded,
      FormsOfItem.NotCoded, Indexes.NotCoded,
      [SpecialFormats.NotCoded, SpecialFormats.NotCoded])
  {
    Reliefs.DecodeEncode(Reliefs.NotCoded);
    SpecialFormats.DecodeEncode(SpecialFormats.NotCoded);
  }

  /** A manuscript book field: illustrated with maps, for juveniles, with bibliographies, indexed fiction. */
  const BookField: seq<byte> := Ascii("tab##j#b####001|1|")

  /** The record that BookField documents. */
  const BookRecord: AdditionalMaterialCharacteristics := Book(
    true,
    [Illustrations.Some, Illustrations.Maps, Illustrations.None, Illustrations.None],
    TargetAudiences.Juvenile, FormsOfItem.None,
    [NaturesOfContents.Bibliographies, NaturesOfContents.None, NaturesOfContents.None, NaturesOfContents.None],
    GovernmentPublications.None, ConferencePublications.NonConference, Festschrifts.NotFestschrift,
    Indexes.Index, LiteraryForms.Fiction, Biographies.NotCoded)

  /** A manuscript single map with contours, Mercator projection, federal, unindexed. */
  const MapField: seq<byte> := Ascii("fa###bd|a||f#|0|e#")

  /** The record that MapField documents. */
  const MapRecord: AdditionalMaterialCharacteristics := Map(
    true,
    [Reliefs.Contours, Reliefs.None, Reliefs.None, Reliefs.None],
    Projections.Mercator, CartographicTypes.SingleMap, GovernmentPublications.Federal,
    FormsOfItem.None, Indexes.None,
    [SpecialFormats.Manuscript, SpecialFormats.None])

  /** The book field decodes field by field to the book record. */
  lemma BookExampleDecodes()
    ensures Decode(BookKind, BookField) == BookRecord
  {
  }

  /** Each position of the book record's encoding is the byte of the book field. */
  lemma BookRecordEncodesAt(i: nat)
    requires i < FieldWidth
    ensures EncodeAt(BookRecord, i) == BookField[i]
  {
  }

  /** The book field is canonical: it survives a decode and re-encode unchanged. */
  lemma BookExampleRoundTrip()
    ensures Encode(Decode(BookKind, BookField)) == BookField
  {
    BookExampleDecodes();
    forall i | 0 <= i < FieldWidth ensures Encode(BookRecord)[i] == BookField[i] {
      BookRecordEncodesAt(i);
    }
  }

  /** The map field decodes field by field to the map record. */
  lemma MapExampleDecodes()
    ensures Decode(MapKind, MapField) == MapRecord
  {
  }

  /** Each position of the map record's encoding is the byte of the map field. */
  lemma MapRecordEncodesAt(i: nat)
    requires i < FieldWidth
    ensures EncodeAt(MapRecord, i) == MapField[i]
  {
  }

  /** The map field is canonical: it survives a decode and re-encode unchanged. */
  lemma MapExampleRoundTrip()
    ensures Encode(Decode(MapKind, MapField)) == MapField
  {
    MapExampleDecodes();
    forall i | 0 <= i < FieldWidth ensures Encode(MapRecord)[i] == MapField[i] {
      MapRecordEncodesAt(i);
    }
  }

  /** An unlisted '9' among a book's illustration codes decodes to NotCoded and comes back as '|'. */
  lemma BookUnlistedIllustration()
    ensures Decode(BookKind, Ascii("t9")).illustrations[0] == Illustrations.NotCoded
    ensures Encode(Decode(BookKind, Ascii("t9")))[1] == NotCodedByte
  {
  }

  /** An unlisted projection pair "a#" decodes to NotCoded and comes back as "||". */
  lemma MapUnlistedProjection()
    ensures Decode(MapKind, Ascii("e####a#")).projection == Projections.NotCoded
    ensures Encode(Decode(MapKind, Ascii("e####a#")))[5..7] == [NotCodedByte, NotCodedByte]
  {
    Projections.BlankAndNotCoded();
    var r := Decode(MapKind, Ascii("e####a#"));
    assert r.projection == Projections.DecodePair('a' as byte, BlankByte);
    Projections.DecodeEncode(Projections.NotCoded);
  }
}
