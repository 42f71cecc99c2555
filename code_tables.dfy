/** Kinds of illustration a book carries (Book positions 1-4, one code per position). */
module Illustrations {
  import opened Bytes

  /** One variant per listed code; NotCoded ('|') is the decode fallback. */
  datatype Illustration =
    | None
    | Some
    | Maps
    | Portraits
    | Charts
    | Plans
    | Plates
    | Music
    | Facsimiles
    | CoatsOfArms
    | GenealogicalTables
    | Forms
    | Samples
    | Phonodiscs
    | Photographs
    | Illuminations
    | NotCoded

  /** The byte each variant is stored as (its discriminant). */
  function Encode(v: Illustration): (b: byte)
    ensures IsCodeByte(b)
  {
    match v
    case None               => '#' as byte
    case Some               => 'a' as byte
    case Maps               => 'b' as byte
    case Portraits          => 'c' as byte
    case Charts             => 'd' as byte
    case Plans              => 'e' as byte
    case Plates             => 'f' as byte
    case Music              => 'g' as byte
    case Facsimiles         => 'h' as byte
    case CoatsOfArms        => 'i' as byte
    case GenealogicalTables => 'j' as byte
    case Forms              => 'k' as byte
    case Samples            => 'l' as byte
    case Phonodiscs         => 'm' as byte
    case Photographs        => 'o' as byte
    case Illuminations      => 'p' as byte
    case NotCoded           => '|' as byte
  }

  /** Total decode: the variant whose discriminant is `b`, and NotCoded for every other byte. */
  function Decode(b: byte): (v: Illustration)
  {
    if b == '#' as byte then None
    else if b == 'a' as byte then Some
    else if b == 'b' as byte then Maps
    else if b == 'c' as byte then Portraits
    else if b == 'd' as byte then Charts
    else if b == 'e' as byte then Plans
    else if b == 'f' as byte then Plates
    else if b == 'g' as byte then Music
    else if b == 'h' as byte then Facsimiles
    else if b == 'i' as byte then CoatsOfArms
    else if b == 'j' as byte then GenealogicalTables
    else if b == 'k' as byte then Forms
    else if b == 'l' as byte then Samples
    else if b == 'm' as byte then Phonodiscs
    else if b == 'o' as byte then Photographs
    else if b == 'p' as byte then Illuminations
    else NotCoded
  }

  /** Decode never invents a variant: its result is NotCoded or a variant whose byte is `b`. */
  lemma DecodeSound(b: byte)
    ensures Decode(b) == NotCoded || Encode(Decode(b)) == b
  {
    match Decode(b)
    case None =>
    case Some =>
    case Maps =>
    case Portraits =>
    case Charts =>
    case Plans =>
    case Plates =>
    case Music =>
    case Facsimiles =>
    case CoatsOfArms =>
    case GenealogicalTables =>
    case Forms =>
    case Samples =>
    case Phonodiscs =>
    case Photographs =>
    case Illuminations =>
    case NotCoded =>
  }

  /** `b` is the discriminant of some variant. */
  ghost predicate IsListed(b: byte) {
    exists v :: Encode(v) == b
  }

  /** Decoding a variant's own byte gives the variant back. */
  lemma DecodeEncode(v: Illustration)
    ensures Decode(Encode(v)) == v
  {
    match v
    case None =>
    case Some =>
    case Maps =>
    case Portraits =>
    case Charts =>
    case Plans =>
    case Plates =>
    case Music =>
    case Facsimiles =>
    case CoatsOfArms =>
    case GenealogicalTables =>
    case Forms =>
    case Samples =>
    case Phonodiscs =>
    case Photographs =>
    case Illuminations =>
    case NotCoded =>
  }

  /** No two variants share a byte. */
  lemma EncodeInjective(v: Illustration, w: Illustration)
    ensures Encode(v) == Encode(w) ==> v == w
  {
    DecodeEncode(v);
    DecodeEncode(w);
  }

  /** Re-encoding a decoded byte gives it back exactly when it is listed; any other byte becomes NotCoded. */
  lemma EncodeDecode(b: byte)
    ensures IsListed(b) ==> Encode(Decode(b)) == b
    ensures !IsListed(b) ==> Decode(b) == NotCoded && Encode(Decode(b)) == NotCodedByte
  {
    if IsListed(b) {
      var v :| Encode(v) == b;
      DecodeEncode(v);
    } else {
      DecodeSound(b);
    }
  }

  /** '#' and '|' decode to two different variants; a space is not a code. */
  lemma BlankAndNotCoded()
    ensures Decode(BlankByte) == None
    ensures Decode(BlankByte) != Decode(NotCodedByte)
    ensures !IsListed(SpaceByte) && Decode(SpaceByte) == NotCoded
  {
    EncodeDecode(BlankByte);
    EncodeDecode(SpaceByte);
  }
}

/** Intended audience of the item (Book and ComputerFile position 5). */
module TargetAudiences {
  import opened Bytes

  /** One variant per listed code; NotCoded ('|') is the decode fallback. */
  datatype TargetAudience =
    | Unknown
    | Preschool
    | Primary
    | PreAdolescent
    | Adolescent
    | Adult
    | Specialized
    | General
    | Juvenile
    | NotCoded

  /** The byte each variant is stored as (its discriminant). */
  function Encode(v: TargetAudience): (b: byte)
    ensures IsCodeByte(b)
  {
    match v
    case Unknown       => '#' as byte
    case Preschool     => 'a' as byte
    case Primary       => 'b' as byte
    case PreAdolescent => 'c' as byte
    case Adolescent    => 'd' as byte
    case Adult         => 'e' as byte
    case Specialized   => 'f' as byte
    case General       => 'g' as byte
    case Juvenile      => 'j' as byte
    case NotCoded      => '|' as byte
  }

  /** Total decode: the variant whose discriminant is `b`, and NotCoded for every other byte. */
  function Decode(b: byte): (v: TargetAudience)
  {
    if b == '#' as byte then Unknown
    else if b == 'a' as byte then Preschool
    else if b == 'b' as byte then Primary
    else if b == 'c' as byte then PreAdolescent
    else if b == 'd' as byte then Adolescent
    else if b == 'e' as byte then Adult
    else if b == 'f' as byte then Specialized
    else if b == 'g' as byte then General
    else if b == 'j' as byte then Juvenile
    else NotCoded
  }

  /** Decode never invents a variant: its result is NotCoded or a variant whose byte is `b`. */
  lemma DecodeSound(b: byte)
    ensures Decode(b) == NotCoded || Encode(Decode(b)) == b
  {
    match Decode(b)
    case Unknown =>
    case Preschool =>
    case Primary =>
    case PreAdolescent =>
    case Adolescent =>
    case Adult =>
    case Specialized =>
    case General =>
    case Juvenile =>
    case NotCoded =>
  }

  /** `b` is the discriminant of some variant. */
  ghost predicate IsListed(b: byte) {
    exists v :: Encode(v) == b
  }

  /** Decoding a variant's own byte gives the variant back. */
  lemma DecodeEncode(v: TargetAudience)
    ensures Decode(Encode(v)) == v
  {
    match v
    case Unknown =>
    case Preschool =>
    case Primary =>
    case PreAdolescent =>
    case Adolescent =>
    case Adult =>
    case Specialized =>
    case General =>
    case Juvenile =>
    case NotCoded =>
  }

  /** No two variants share a byte. */
  lemma EncodeInjective(v: TargetAudience, w: TargetAudience)
    ensures Encode(v) == Encode(w) ==> v == w
  {
    DecodeEncode(v);
    DecodeEncode(w);
  }

  /** Re-encoding a decoded byte gives it back exactly when it is listed; any other byte becomes NotCoded. */
  lemma EncodeDecode(b: byte)
    ensures IsListed(b) ==> Encode(Decode(b)) == b
    ensures !IsListed(b) ==> Decode(b) == NotCoded && Encode(Decode(b)) == NotCodedByte
  {
    if IsListed(b) {
      var v :| Encode(v) == b;
      DecodeEncode(v);
    } else {
      DecodeSound(b);
    }
  }

  /** '#' and '|' decode to two different variants; a space is not a code. */
  lemma BlankAndNotCoded()
    ensures Decode(BlankByte) == Unknown
    ensures Decode(BlankByte) != Decode(NotCodedByte)
    ensures !IsListed(SpaceByte) && Decode(SpaceByte) == NotCoded
  {
    EncodeDecode(BlankByte);
    EncodeDecode(SpaceByte);
  }
}

/** Physical or electronic form of the item (Book and ComputerFile position 6, Map position 12). */
module FormsOfItem {
  import opened Bytes

  /** One variant per listed code; NotCoded ('|') is the decode fallback. */
  datatype FormOfItem =
    | None
    | Microfilm
    | Microfiche
    | Microopaque
    | LargePrint
    | Braille
    | Online
    | DirectElectronic
    | PrintReproduction
    | Electronic
    | NotCoded

  /** The byte each variant is stored as (its discriminant). */
  function Encode(v: FormOfItem): (b: byte)
    ensures IsCodeByte(b)
  {
    match v
    case None              => '#' as byte
    case Microfilm         => 'a' as byte
    case Microfiche        => 'b' as byte
    case Microopaque       => 'c' as byte
    case LargePrint        => 'd' as byte
    case Braille           => 'f' as byte
    case Online            => 'o' as byte
    case DirectElectronic  => 'q' as byte
    case PrintReproduction => 'r' as byte
    case Electronic        => 's' as byte
    case NotCoded          => '|' as byte
  }

  /** Total decode: the variant whose discriminant is `b`, and NotCoded for every other byte. */
  function Decode(b: byte): (v: FormOfItem)
  {
    if b == '#' as byte then None
    else if b == 'a' as byte then Microfilm
    else if b == 'b' as byte then Microfiche
    else if b == 'c' as byte then Microopaque
    else if b == 'd' as byte then LargePrint
    else if b == 'f' as byte then Braille
    else if b == 'o' as byte then Online
    else if b == 'q' as byte then DirectElectronic
    else if b == 'r' as byte then PrintReproduction
    else if b == 's' as byte then Electronic
    else NotCoded
  }

  /** Decode never invents a variant: its result is NotCoded or a variant whose byte is `b`. */
  lemma DecodeSound(b: byte)
    ensures Decode(b) == NotCoded || Encode(Decode(b)) == b
  {
    match Decode(b)
    case None =>
    case Microfilm =>
    case Microfiche =>
    case Microopaque =>
    case LargePrint =>
    case Braille =>
    case Online =>
    case DirectElectronic =>
    case PrintReproduction =>
    case Electronic =>
    case NotCoded =>
  }

  /** `b` is the discriminant of some variant. */
  ghost predicate IsListed(b: byte) {
    exists v :: Encode(v) == b
  }

  /** Decoding a variant's own byte gives the variant back. */
  lemma DecodeEncode(v: FormOfItem)
    ensures Decode(Encode(v)) == v
  {
    match v
    case None =>
    case Microfilm =>
    case Microfiche =>
    case Microopaque =>
    case LargePrint =>
    case Braille =>
    case Online =>
    case DirectElectronic =>
    case PrintReproduction =>
    case Electronic =>
    case NotCoded =>
  }

  /** No two variants share a byte. */
  lemma EncodeInjective(v: FormOfItem, w: FormOfItem)
    ensures Encode(v) == Encode(w) ==> v == w
  {
    DecodeEncode(v);
    DecodeEncode(w);
  }

  /** Re-encoding a decoded byte gives it back exactly when it is listed; any other byte becomes NotCoded. */
  lemma EncodeDecode(b: byte)
    ensures IsListed(b) ==> Encode(Decode(b)) == b
    ensures !IsListed(b) ==> Decode(b) == NotCoded && Encode(Decode(b)) == NotCodedByte
  {
    if IsListed(b) {
      var v :| Encode(v) == b;
      DecodeEncode(v);
    } else {
      DecodeSound(b);
    }
  }

  /** '#' and '|' decode to two different variants; a space is not a code. */
  lemma BlankAndNotCoded()
    ensures Decode(BlankByte) == None
    ensures Decode(BlankByte) != Decode(NotCodedByte)
    ensures !IsListed(SpaceByte) && Decode(SpaceByte) == NotCoded
  {
    EncodeDecode(BlankByte);
    EncodeDecode(SpaceByte);
  }
}

/** Nature of a book's contents (Book positions 7-10, one code per position). */
module NaturesOfContents {
  import opened Bytes

  /** One variant per listed code; NotCoded ('|') is the decode fallback. */
  datatype NatureOfContents =
    | None
    | Abstracts
    | Bibliographies
    | Catalogs
    | Dictionaries
    | Encyclopedias
    | Handbooks
    | LegalArticles
    | Indexes
    | PatentDocument
    | Discographies
    | Legislation
    | Theses
    | SurveysOfLiterature
    | Reviews
    | ProgrammedTexts
    | Filmographies
    | Directories
    | Statistics
    | TechnicalReports
    | Standards
    | LegalCases
    | LawReports
    | Yearbooks
    | Treaties
    | Offprints
    | Calendars
    | Comics
    | NotCoded

  /** The byte each variant is stored as (its discriminant). */
  function Encode(v: NatureOfContents): (b: byte)
    ensures IsCodeByte(b)
  {
    match v
    case None                => '#' as byte
    case Abstracts           => 'a' as byte
    case Bibliographies      => 'b' as byte
    case Catalogs            => 'c' as byte
    case Dictionaries        => 'd' as byte
    case Encyclopedias       => 'e' as byte
    case Handbooks           => 'f' as byte
    case LegalArticles       => 'g' as byte
    case Indexes             => 'i' as byte
    case PatentDocument      => 'j' as byte
    case Discographies       => 'k' as byte
    case Legislation         => 'l' as byte
    case Theses              => 'm' as byte
    case SurveysOfLiterature => 'n' as byte
    case Reviews             => 'o' as byte
    case ProgrammedTexts     => 'p' as byte
    case Filmographies       => 'q' as byte
    case Directories         => 'r' as byte
    case Statistics          => 's' as byte
    case TechnicalReports    => 't' as byte
    case Standards           => 'u' as byte
    case LegalCases          => 'v' as byte
    case LawReports          => 'w' as byte
    case Yearbooks           => 'y' as byte
    case Treaties            => 'z' as byte
    case Offprints           => '2' as byte
    case Calendars           => '5' as byte
    case Comics              => '6' as byte
    case NotCoded            => '|' as byte
  }

  /** Total decode: the variant whose discriminant is `b`, and NotCoded for every other byte. */
  function Decode(b: byte): (v: NatureOfContents)
  {
    if b == '#' as byte then None
    else if b == 'a' as byte then Abstracts
    else if b == 'b' as byte then Bibliographies
    else if b == 'c' as byte then Catalogs
    else if b == 'd' as byte then Dictionaries
    else if b == 'e' as byte then Encyclopedias
    else if b == 'f' as byte then Handbooks
    else if b == 'g' as byte then LegalArticles
    else if b == 'i' as byte then Indexes
    else if b == 'j' as byte then PatentDocument
    else if b == 'k' as byte then Discographies
    else if b == 'l' as byte then Legislation
    else if b == 'm' as byte then Theses
    else if b == 'n' as byte then SurveysOfLiterature
    else if b == 'o' as byte then Reviews
    else if b == 'p' as byte then ProgrammedTexts
    else if b == 'q' as byte then Filmographies
    else if b == 'r' as byte then Directories
    else if b == 's' as byte then Statistics
    else if b == 't' as byte then TechnicalReports
    else if b == 'u' as byte then Standards
    else if b == 'v' as byte then LegalCases
    else if b == 'w' as byte then LawReports
    else if b == 'y' as byte then Yearbooks
    else if b == 'z' as byte then Treaties
    else if b == '2' as byte then Offprints
    else if b == '5' as byte then Calendars
    else if b == '6' as byte then Comics
    else NotCoded
  }

  /** Decode never invents a variant: its result is NotCoded or a variant whose byte is `b`. */
  lemma DecodeSound(b: byte)
    ensures Decode(b) == NotCoded || Encode(Decode(b)) == b
  {
    match Decode(b)
    case None =>
    case Abstracts =>
    case Bibliographies =>
    case Catalogs =>
    case Dictionaries =>
    case Encyclopedias =>
    case Handbooks =>
    case LegalArticles =>
    case Indexes =>
    case PatentDocument =>
    case Discographies =>
    case Legislation =>
    case Theses =>
    case SurveysOfLiterature =>
    case Reviews =>
    case ProgrammedTexts =>
    case Filmographies =>
    case Directories =>
    case Statistics =>
    case TechnicalReports =>
    case Standards =>
    case LegalCases =>
    case LawReports =>
    case Yearbooks =>
    case Treaties =>
    case Offprints =>
    case Calendars =>
    case Comics =>
    case NotCoded =>
  }

  /** `b` is the discriminant of some variant. */
  ghost predicate IsListed(b: byte) {
    exists v :: Encode(v) == b
  }

  /** Decoding a variant's own byte gives the variant back. */
  lemma DecodeEncode(v: NatureOfContents)
    ensures Decode(Encode(v)) == v
  {
    match v
    case None =>
    case Abstracts =>
    case Bibliographies =>
    case Catalogs =>
    case Dictionaries =>
    case Encyclopedias =>
    case Handbooks =>
    case LegalArticles =>
    case Indexes =>
    case PatentDocument =>
    case Discographies =>
    case Legislation =>
    case Theses =>
    case SurveysOfLiterature =>
    case Reviews =>
    case ProgrammedTexts =>
    case Filmographies =>
    case Directories =>
    case Statistics =>
    case TechnicalReports =>
    case Standards =>
    case LegalCases =>
    case LawReports =>
    case Yearbooks =>
    case Treaties =>
    case Offprints =>
    case Calendars =>
    case Comics =>
    case NotCoded =>
  }

  /** No two variants share a byte. */
  lemma EncodeInjective(v: NatureOfContents, w: NatureOfContents)
    ensures Encode(v) == Encode(w) ==> v == w
  {
    DecodeEncode(v);
    DecodeEncode(w);
  }

  /** Re-encoding a decoded byte gives it back exactly when it is listed; any other byte becomes NotCoded. */
  lemma EncodeDecode(b: byte)
    ensures IsListed(b) ==> Encode(Decode(b)) == b
    ensures !IsListed(b) ==> Decode(b) == NotCoded && Encode(Decode(b)) == NotCodedByte
  {
    if IsListed(b) {
      var v :| Encode(v) == b;
      DecodeEncode(v);
    } else {
      DecodeSound(b);
    }
  }

  /** '#' and '|' decode to two different variants; a space is not a code. */
  lemma BlankAndNotCoded()
    ensures Decode(BlankByte) == None
    ensures Decode(BlankByte) != Decode(NotCodedByte)
    ensures !IsListed(SpaceByte) && Decode(SpaceByte) == NotCoded
  {
    EncodeDecode(BlankByte);
    EncodeDecode(SpaceByte);
  }
}

/** Level of government that issued the item, if any (position 11 in every kind). */
module GovernmentPublications {
  import opened Bytes

  /** One variant per listed code; NotCoded ('|') is the decode fallback. */
  datatype GovernmentPublication =
    | None
    | Autonomous
    | Multilocal
    | Federal
    | International
    | Local
    | Multistate
    | Undetermined
    | State
    | Unknown
    | Other
    | NotCoded

  /** The byte each variant is stored as (its discriminant). */
  function Encode(v: GovernmentPublication): (b: byte)
    ensures IsCodeByte(b)
  {
    match v
    case None          => '#' as byte
    case Autonomous    => 'a' as byte
    case Multilocal    => 'c' as byte
    case Federal       => 'f' as byte
    case International => 'i' as byte
    case Local         => 'l' as byte
    case Multistate    => 'm' as byte
    case Undetermined  => 'o' as byte
    case State         => 's' as byte
    case Unknown       => 'u' as byte
    case Other         => 'z' as byte
    case NotCoded      => '|' as byte
  }

  /** Total decode: the variant whose discriminant is `b`, and NotCoded for every other byte. */
  function Decode(b: byte): (v: GovernmentPublication)
  {
    if b == '#' as byte then None
    else if b == 'a' as byte then Autonomous
    else if b == 'c' as byte then Multilocal
    else if b == 'f' as byte then Federal
    else if b == 'i' as byte then International
    else if b == 'l' as byte then Local
    else if b == 'm' as byte then Multistate
    else if b == 'o' as byte then Undetermined
    else if b == 's' as byte then State
    else if b == 'u' as byte then Unknown
    else if b == 'z' as byte then Other
    else NotCoded
  }

  /** Decode never invents a variant: its result is NotCoded or a variant whose byte is `b`. */
  lemma DecodeSound(b: byte)
    ensures Decode(b) == NotCoded || Encode(Decode(b)) == b
  {
    match Decode(b)
    case None =>
    case Autonomous =>
    case Multilocal =>
    case Federal =>
    case International =>
    case Local =>
    case Multistate =>
    case Undetermined =>
    case State =>
    case Unknown =>
    case Other =>
    case NotCoded =>
  }

  /** `b` is the discriminant of some variant. */
  ghost predicate IsListed(b: byte) {
    exists v :: Encode(v) == b
  }

  /** Decoding a variant's own byte gives the variant back. */
  lemma DecodeEncode(v: GovernmentPublication)
    ensures Decode(Encode(v)) == v
  {
    match v
    case None =>
    case Autonomous =>
    case Multilocal =>
    case Federal =>
    case International =>
    case Local =>
    case Multistate =>
    case Undetermined =>
    case State =>
    case Unknown =>
    case Other =>
    case NotCoded =>
  }

  /** No two variants share a byte. */
  lemma EncodeInjective(v: GovernmentPublication, w: GovernmentPublication)
    ensures Encode(v) == Encode(w) ==> v == w
  {
    DecodeEncode(v);
    DecodeEncode(w);
  }

  /** Re-encoding a decoded byte gives it back exactly when it is listed; any other byte becomes NotCoded. */
  lemma EncodeDecode(b: byte)
    ensures IsListed(b) ==> Encode(Decode(b)) == b
    ensures !IsListed(b) ==> Decode(b) == NotCoded && Encode(Decode(b)) == NotCodedByte
  {
    if IsListed(b) {
      var v :| Encode(v) == b;
      DecodeEncode(v);
    } else {
      DecodeSound(b);
    }
  }

  /** '#' and '|' decode to two different variants; a space is not a code. */
  lemma BlankAndNotCoded()
    ensures Decode(BlankByte) == None
    ensures Decode(BlankByte) != Decode(NotCodedByte)
    ensures !IsListed(SpaceByte) && Decode(SpaceByte) == NotCoded
  {
    EncodeDecode(BlankByte);
    EncodeDecode(SpaceByte);
  }
}

/** Whether a book is a conference publication (Book position 12). The table has no '#' code. */
module ConferencePublications {
  import opened Bytes

  /** One variant per listed code; NotCoded ('|') is the decode fallback. */
  datatype ConferencePublication =
    | NonConference
    | Conference
    | NotCoded

  /** The byte each variant is stored as (its discriminant). */
  function Encode(v: ConferencePublication): (b: byte)
    ensures IsCodeByte(b)
  {
    match v
    case NonConference => '0' as byte
    case Conference    => '1' as byte
    case NotCoded      => '|' as byte
  }

  /** Total decode: the variant whose discriminant is `b`, and NotCoded for every other byte. */
  function Decode(b: byte): (v: ConferencePublication)
  {
    if b == '0' as byte then NonConference
    else if b == '1' as byte then Conference
    else NotCoded
  }

  /** Decode never invents a variant: its result is NotCoded or a variant whose byte is `b`. */
  lemma DecodeSound(b: byte)
    ensures Decode(b) == NotCoded || Encode(Decode(b)) == b
  {
    match Decode(b)
    case NonConference =>
    case Conference =>
    case NotCoded =>
  }

  /** `b` is the discriminant of some variant. */
  ghost predicate IsListed(b: byte) {
    exists v :: Encode(v) == b
  }

  /** Decoding a variant's own byte gives the variant back. */
  lemma DecodeEncode(v: ConferencePublication)
    ensures Decode(Encode(v)) == v
  {
    match v
    case NonConference =>
    case Conference =>
    case NotCoded =>
  }

  /** No two variants share a byte. */
  lemma EncodeInjective(v: ConferencePublication, w: ConferencePublication)
    ensures Encode(v) == Encode(w) ==> v == w
  {
    DecodeEncode(v);
    DecodeEncode(w);
  }

  /** Re-encoding a decoded byte gives it back exactly when it is listed; any other byte becomes NotCoded. */
  lemma EncodeDecode(b: byte)
    ensures IsListed(b) ==> Encode(Decode(b)) == b
    ensures !IsListed(b) ==> Decode(b) == NotCoded && Encode(Decode(b)) == NotCodedByte
  {
    if IsListed(b) {
      var v :| Encode(v) == b;
      DecodeEncode(v);
    } else {
      DecodeSound(b);
    }
  }

  /** Neither '#' nor a space is listed: both decode to NotCoded. */
  lemma BlankIsNotCoded()
    ensures !IsListed(BlankByte) && Decode(BlankByte) == NotCoded
    ensures !IsListed(SpaceByte) && Decode(SpaceByte) == NotCoded
  {
    EncodeDecode(BlankByte);
    EncodeDecode(SpaceByte);
  }
}

/** Whether a book is a festschrift (Book position 13). The table has no '#' code. */
module Festschrifts {
  import opened Bytes

  /** One variant per listed code; NotCoded ('|') is the decode fallback. */
  datatype Festschrift =
    | NotFestschrift
    | Festschrift
    | NotCoded

  /** The byte each variant is stored as (its discriminant). */
  function Encode(v: Festschrift): (b: byte)
    ensures IsCodeByte(b)
  {
    match v
    case NotFestschrift => '0' as byte
    case Festschrift    => '1' as byte
    case NotCoded       => '|' as byte
  }

  /** Total decode: the variant whose discriminant is `b`, and NotCoded for every other byte. */
  function Decode(b: byte): (v: Festschrift)
  {
    if b == '0' as byte then NotFestschrift
    else if b == '1' as byte then Festschrift
    else NotCoded
  }

  /** Decode never invents a variant: its result is NotCoded or a variant whose byte is `b`. */
  lemma DecodeSound(b: byte)
    ensures Decode(b) == NotCoded || Encode(Decode(b)) == b
  {
    match Decode(b)
    case NotFestschrift =>
    case Festschrift =>
    case NotCoded =>
  }

  /** `b` is the discriminant of some variant. */
  ghost predicate IsListed(b: byte) {
    exists v :: Encode(v) == b
  }

  /** Decoding a variant's own byte gives the variant back. */
  lemma DecodeEncode(v: Festschrift)
    ensures Decode(Encode(v)) == v
  {
    match v
    case NotFestschrift =>
    case Festschrift =>
    case NotCoded =>
  }

  /** No two variants share a byte. */
  lemma EncodeInjective(v: Festschrift, w: Festschrift)
    ensures Encode(v) == Encode(w) ==> v == w
  {
    DecodeEncode(v);
    DecodeEncode(w);
  }

  /** Re-encoding a decoded byte gives it back exactly when it is listed; any other byte becomes NotCoded. */
  lemma EncodeDecode(b: byte)
    ensures IsListed(b) ==> Encode(Decode(b)) == b
    ensures !IsListed(b) ==> Decode(b) == NotCoded && Encode(Decode(b)) == NotCodedByte
  {
    if IsListed(b) {
      var v :| Encode(v) == b;
      DecodeEncode(v);
    } else {
      DecodeSound(b);
    }
  }

  /** Neither '#' nor a space is listed: both decode to NotCoded. */
  lemma BlankIsNotCoded()
    ensures !IsListed(BlankByte) && Decode(BlankByte) == NotCoded
    ensures !IsListed(SpaceByte) && Decode(SpaceByte) == NotCoded
  {
    EncodeDecode(BlankByte);
    EncodeDecode(SpaceByte);
  }
}

/** Whether the item indexes its own contents (Book and Map position 14). The table has no '#' code. */
module Indexes {
  import opened Bytes

  /** One variant per listed code; NotCoded ('|') is the decode fallback. */
  datatype Index =
    | None
    | Index
    | NotCoded

  /** The byte each variant is stored as (its discriminant). */
  function Encode(v: Index): (b: byte)
    ensures IsCodeByte(b)
  {
    match v
    case None     => '0' as byte
    case Index    => '1' as byte
    case NotCoded => '|' as byte
  }

  /** Total decode: the variant whose discriminant is `b`, and NotCoded for every other byte. */
  function Decode(b: byte): (v: Index)
  {
    if b == '0' as byte then None
    else if b == '1' as byte then Index
    else NotCoded
  }

  /** Decode never invents a variant: its result is NotCoded or a variant whose byte is `b`. */
  lemma DecodeSound(b: byte)
    ensures Decode(b) == NotCoded || Encode(Decode(b)) == b
  {
    match Decode(b)
    case None =>
    case Index =>
    case NotCoded =>
  }

  /** `b` is the discriminant of some variant. */
  ghost predicate IsListed(b: byte) {
    exists v :: Encode(v) == b
  }

  /** Decoding a variant's own byte gives the variant back. */
  lemma DecodeEncode(v: Index)
    ensures Decode(Encode(v)) == v
  {
    match v
    case None =>
    case Index =>
    case NotCoded =>
  }

  /** No two variants share a byte. */
  lemma EncodeInjective(v: Index, w: Index)
    ensures Encode(v) == Encode(w) ==> v == w
  {
    DecodeEncode(v);
    DecodeEncode(w);
  }

  /** Re-encoding a decoded byte gives it back exactly when it is listed; any other byte becomes NotCoded. */
  lemma EncodeDecode(b: byte)
    ensures IsListed(b) ==> Encode(Decode(b)) == b
    ensures !IsListed(b) ==> Decode(b) == NotCoded && Encode(Decode(b)) == NotCodedByte
  {
    if IsListed(b) {
      var v :| Encode(v) == b;
      DecodeEncode(v);
    } else {
      DecodeSound(b);
    }
  }

  /** Neither '#' nor a space is listed: both decode to NotCoded. */
  lemma BlankIsNotCoded()
    ensures !IsListed(BlankByte) && Decode(BlankByte) == NotCoded
    ensures !IsListed(SpaceByte) && Decode(SpaceByte) == NotCoded
  {
    EncodeDecode(BlankByte);
    EncodeDecode(SpaceByte);
  }
}

/** Literary form of a book (Book position 16). The table has no '#' code. */
module LiteraryForms {
  import opened Bytes

  /** One variant per listed code; NotCoded ('|') is the decode fallback. */
  datatype LiteraryForm =
    | NotFiction
    | Fiction
    | Dramas
    | Essays
    | Novels
    | Humor
    | Letters
    | ShortStories
    | MixedForms
    | Poetry
    | Speeches
    | Unknown
    | NotCoded

  /** The byte each variant is stored as (its discriminant). */
  function Encode(v: LiteraryForm): (b: byte)
    ensures IsCodeByte(b)
  {
    match v
    case NotFiction   => '0' as byte
    case Fiction      => '1' as byte
    case Dramas       => 'd' as byte
    case Essays       => 'e' as byte
    case Novels       => 'f' as byte
    case Humor        => 'h' as byte
    case Letters      => 'i' as byte
    case ShortStories => 'j' as byte
    case MixedForms   => 'm' as byte
    case Poetry       => 'p' as byte
    case Speeches     => 's' as byte
    case Unknown      => 'u' as byte
    case NotCoded     => '|' as byte
  }

  /** Total decode: the variant whose discriminant is `b`, and NotCoded for every other byte. */
  function Decode(b: byte): (v: LiteraryForm)
  {
    if b == '0' as byte then NotFiction
    else if b == '1' as byte then Fiction
    else if b == 'd' as byte then Dramas
    else if b == 'e' as byte then Essays
    else if b == 'f' as byte then Novels
    else if b == 'h' as byte then Humor
    else if b == 'i' as byte then Letters
    else if b == 'j' as byte then ShortStories
    else if b == 'm' as byte then MixedForms
    else if b == 'p' as byte then Poetry
    else if b == 's' as byte then Speeches
    else if b == 'u' as byte then Unknown
    else NotCoded
  }

  /** Decode never invents a variant: its result is NotCoded or a variant whose byte is `b`. */
  lemma DecodeSound(b: byte)
    ensures Decode(b) == NotCoded || Encode(Decode(b)) == b
  {
    match Decode(b)
    case NotFiction =>
    case Fiction =>
    case Dramas =>
    case Essays =>
    case Novels =>
    case Humor =>
    case Letters =>
    case ShortStories =>
    case MixedForms =>
    case Poetry =>
    case Speeches =>
    case Unknown =>
    case NotCoded =>
  }

  /** `b` is the discriminant of some variant. */
  ghost predicate IsListed(b: byte) {
    exists v :: Encode(v) == b
  }

  /** Decoding a variant's own byte gives the variant back. */
  lemma DecodeEncode(v: LiteraryForm)
    ensures Decode(Encode(v)) == v
  {
    match v
    case NotFiction =>
    case Fiction =>
    case Dramas =>
    case Essays =>
    case Novels =>
    case Humor =>
    case Letters =>
    case ShortStories =>
    case MixedForms =>
    case Poetry =>
    case Speeches =>
    case Unknown =>
    case NotCoded =>
  }

  /** No two variants share a byte. */
  lemma EncodeInjective(v: LiteraryForm, w: LiteraryForm)
    ensures Encode(v) == Encode(w) ==> v == w
  {
    DecodeEncode(v);
    DecodeEncode(w);
  }

  /** Re-encoding a decoded byte gives it back exactly when it is listed; any other byte becomes NotCoded. */
  lemma EncodeDecode(b: byte)
    ensures IsListed(b) ==> Encode(Decode(b)) == b
    ensures !IsListed(b) ==> Decode(b) == NotCoded && Encode(Decode(b)) == NotCodedByte
  {
    if IsListed(b) {
      var v :| Encode(v) == b;
      DecodeEncode(v);
    } else {
      DecodeSound(b);
    }
  }

  /** Neither '#' nor a space is listed: both decode to NotCoded. */
  lemma BlankIsNotCoded()
    ensures !IsListed(BlankByte) && Decode(BlankByte) == NotCoded
    ensures !IsListed(SpaceByte) && Decode(SpaceByte) == NotCoded
  {
    EncodeDecode(BlankByte);
    EncodeDecode(SpaceByte);
  }
}

/** Kind of biographical material in a book. The Book record carries it, but no position is given for it. */
module Biographies {
  import opened Bytes

  /** One variant per listed code; NotCoded ('|') is the decode fallback. */
  datatype Biography =
    | None
    | Autobiography
    | Individual
    | Collective
    | Contains
    | NotCoded

  /** The byte each variant is stored as (its discriminant). */
  function Encode(v: Biography): (b: byte)
    ensures IsCodeByte(b)
  {
    match v
    case None          => '#' as byte
    case Autobiography => 'a' as byte
    case Individual    => 'b' as byte
    case Collective    => 'c' as byte
    case Contains      => 'd' as byte
    case NotCoded      => '|' as byte
  }

  /** Total decode: the variant whose discriminant is `b`, and NotCoded for every other byte. */
  function Decode(b: byte): (v: Biography)
  {
    if b == '#' as byte then None
    else if b == 'a' as byte then Autobiography
    else if b == 'b' as byte then Individual
    else if b == 'c' as byte then Collective
    else if b == 'd' as byte then Contains
    else NotCoded
  }

  /** Decode never invents a variant: its result is NotCoded or a variant whose byte is `b`. */
  lemma DecodeSound(b: byte)
    ensures Decode(b) == NotCoded || Encode(Decode(b)) == b
  {
    match Decode(b)
    case None =>
    case Autobiography =>
    case Individual =>
    case Collective =>
    case Contains =>
    case NotCoded =>
  }

  /** `b` is the discriminant of some variant. */
  ghost predicate IsListed(b: byte) {
    exists v :: Encode(v) == b
  }

  /** Decoding a variant's own byte gives the variant back. */
  lemma DecodeEncode(v: Biography)
    ensures Decode(Encode(v)) == v
  {
    match v
    case None =>
    case Autobiography =>
    case Individual =>
    case Collective =>
    case Contains =>
    case NotCoded =>
  }

  /** No two variants share a byte. */
  lemma EncodeInjective(v: Biography, w: Biography)
    ensures Encode(v) == Encode(w) ==> v == w
  {
    DecodeEncode(v);
    DecodeEncode(w);
  }

  /** Re-encoding a decoded byte gives it back exactly when it is listed; any other byte becomes NotCoded. */
  lemma EncodeDecode(b: byte)
    ensures IsListed(b) ==> Encode(Decode(b)) == b
    ensures !IsListed(b) ==> Decode(b) == NotCoded && Encode(Decode(b)) == NotCodedByte
  {
    if IsListed(b) {
      var v :| Encode(v) == b;
      DecodeEncode(v);
    } else {
      DecodeSound(b);
    }
  }

  /** '#' and '|' decode to two different variants; a space is not a code. */
  lemma BlankAndNotCoded()
    ensures Decode(BlankByte) == None
    ensures Decode(BlankByte) != Decode(NotCodedByte)
    ensures !IsListed(SpaceByte) && Decode(SpaceByte) == NotCoded
  {
    EncodeDecode(BlankByte);
    EncodeDecode(SpaceByte);
  }
}

/** Kind of computer file (ComputerFile position 9). The table has no '#' code. */
module FileTypes {
  import opened Bytes

  /** One variant per listed code; NotCoded ('|') is the decode fallback. */
  datatype FileType =
    | Numeric
    | ComputerProgram
    | Representational
    | Document
    | Bibliographic
    | Font
    | Game
    | Sound
    | InteractiveMultimedia
    | OnlineSystem
    | Combination
    | Unknown
    | Other
    | NotCoded

  /** The byte each variant is stored as (its discriminant). */
  function Encode(v: FileType): (b: byte)
    ensures IsCodeByte(b)
  {
    match v
    case Numeric               => 'a' as byte
    case ComputerProgram       => 'b' as byte
    case Representational      => 'c' as byte
    case Document              => 'd' as byte
    case Bibliographic         => 'e' as byte
    case Font                  => 'f' as byte
    case Game                  => 'g' as byte
    case Sound                 => 'h' as byte
    case InteractiveMultimedia => 'i' as byte
    case OnlineSystem          => 'j' as byte
    case Combination           => 'm' as byte
    case Unknown               => 'u' as byte
    case Other                 => 'z' as byte
    case NotCoded              => '|' as byte
  }

  /** Total decode: the variant whose discriminant is `b`, and NotCoded for every other byte. */
  function Decode(b: byte): (v: FileType)
  {
    if b == 'a' as byte then Numeric
    else if b == 'b' as byte then ComputerProgram
    else if b == 'c' as byte then Representational
    else if b == 'd' as byte then Document
    else if b == 'e' as byte then Bibliographic
    else if b == 'f' as byte then Font
    else if b == 'g' as byte then Game
    else if b == 'h' as byte then Sound
    else if b == 'i' as byte then InteractiveMultimedia
    else if b == 'j' as byte then OnlineSystem
    else if b == 'm' as byte then Combination
    else if b == 'u' as byte then Unknown
    else if b == 'z' as byte then Other
    else NotCoded
  }

  /** Decode never invents a variant: its result is NotCoded or a variant whose byte is `b`. */
  lemma DecodeSound(b: byte)
    ensures Decode(b) == NotCoded || Encode(Decode(b)) == b
  {
    match Decode(b)
    case Numeric =>
    case ComputerProgram =>
    case Representational =>
    case Document =>
    case Bibliographic =>
    case Font =>
    case Game =>
    case Sound =>
    case InteractiveMultimedia =>
    case OnlineSystem =>
    case Combination =>
    case Unknown =>
    case Other =>
    case NotCoded =>
  }

  /** `b` is the discriminant of some variant. */
  ghost predicate IsListed(b: byte) {
    exists v :: Encode(v) == b
  }

  /** Decoding a variant's own byte gives the variant back. */
  lemma DecodeEncode(v: FileType)
    ensures Decode(Encode(v)) == v
  {
    match v
    case Numeric =>
    case ComputerProgram =>
    case Representational =>
    case Document =>
    case Bibliographic =>
    case Font =>
    case Game =>
    case Sound =>
    case InteractiveMultimedia =>
    case OnlineSystem =>
    case Combination =>
    case Unknown =>
    case Other =>
    case NotCoded =>
  }

  /** No two variants share a byte. */
  lemma EncodeInjective(v: FileType, w: FileType)
    ensures Encode(v) == Encode(w) ==> v == w
  {
    DecodeEncode(v);
    DecodeEncode(w);
  }

  /** Re-encoding a decoded byte gives it back exactly when it is listed; any other byte becomes NotCoded. */
  lemma EncodeDecode(b: byte)
    ensures IsListed(b) ==> Encode(Decode(b)) == b
    ensures !IsListed(b) ==> Decode(b) == NotCoded && Encode(Decode(b)) == NotCodedByte
  {
    if IsListed(b) {
      var v :| Encode(v) == b;
      DecodeEncode(v);
    } else {
      DecodeSound(b);
    }
  }

  /** Neither '#' nor a space is listed: both decode to NotCoded. */
  lemma BlankIsNotCoded()
    ensures !IsListed(BlankByte) && Decode(BlankByte) == NotCoded
    ensures !IsListed(SpaceByte) && Decode(SpaceByte) == NotCoded
  {
    EncodeDecode(BlankByte);
    EncodeDecode(SpaceByte);
  }
}

/** How relief is shown on a map (Map positions 1-4, one code per position). */
module Reliefs {
  import opened Bytes

  /** One variant per listed code; NotCoded ('|') is the decode fallback. */
  datatype Relief =
    | None
    | Contours
    | Shading
    | Gradient
    | Hachures
    | Bathymetry
    | FormLines
    | SpotHeights
    | Pictorially
    | LandForms
    | Isolines
    | RockDrawings
    | Other
    | NotCoded

  /** The byte each variant is stored as (its discriminant). */
  function Encode(v: Relief): (b: byte)
    ensures IsCodeByte(b)
  {
    match v
    case None         => '#' as byte
    case Contours     => 'a' as byte
    case Shading      => 'b' as byte
    case Gradient     => 'c' as byte
    case Hachures     => 'd' as byte
    case Bathymetry   => 'e' as byte
    case FormLines    => 'f' as byte
    case SpotHeights  => 'g' as byte
    case Pictorially  => 'i' as byte
    case LandForms    => 'j' as byte
    case Isolines     => 'k' as byte
    case RockDrawings => 'm' as byte
    case Other        => 'z' as byte
    case NotCoded     => '|' as byte
  }

  /** Total decode: the variant whose discriminant is `b`, and NotCoded for every other byte. */
  function Decode(b: byte): (v: Relief)
  {
    if b == '#' as byte then None
    else if b == 'a' as byte then Contours
    else if b == 'b' as byte then Shading
    else if b == 'c' as byte then Gradient
    else if b == 'd' as byte then Hachures
    else if b == 'e' as byte then Bathymetry
    else if b == 'f' as byte then FormLines
    else if b == 'g' as byte then SpotHeights
    else if b == 'i' as byte then Pictorially
    else if b == 'j' as byte then LandForms
    else if b == 'k' as byte then Isolines
    else if b == 'm' as byte then RockDrawings
    else if b == 'z' as byte then Other
    else NotCoded
  }

  /** Decode never invents a variant: its result is NotCoded or a variant whose byte is `b`. */
  lemma DecodeSound(b: byte)
    ensures Decode(b) == NotCoded || Encode(Decode(b)) == b
  {
    match Decode(b)
    case None =>
    case Contours =>
    case Shading =>
    case Gradient =>
    case Hachures =>
    case Bathymetry =>
    case FormLines =>
    case SpotHeights =>
    case Pictorially =>
    case LandForms =>
    case Isolines =>
    case RockDrawings =>
    case Other =>
    case NotCoded =>
  }

  /** `b` is the discriminant of some variant. */
  ghost predicate IsListed(b: byte) {
    exists v :: Encode(v) == b
  }

  /** Decoding a variant's own byte gives the variant back. */
  lemma DecodeEncode(v: Relief)
    ensures Decode(Encode(v)) == v
  {
    match v
    case None =>
    case Contours =>
    case Shading =>
    case Gradient =>
    case Hachures =>
    case Bathymetry =>
    case FormLines =>
    case SpotHeights =>
    case Pictorially =>
    case LandForms =>
    case Isolines =>
    case RockDrawings =>
    case Other =>
    case NotCoded =>
  }

  /** No two variants share a byte. */
  lemma EncodeInjective(v: Relief, w: Relief)
    ensures Encode(v) == Encode(w) ==> v == w
  {
    DecodeEncode(v);
    DecodeEncode(w);
  }

  /** Re-encoding a decoded byte gives it back exactly when it is listed; any other byte becomes NotCoded. */
  lemma EncodeDecode(b: byte)
    ensures IsListed(b) ==> Encode(Decode(b)) == b
    ensures !IsListed(b) ==> Decode(b) == NotCoded && Encode(Decode(b)) == NotCodedByte
  {
    if IsListed(b) {
      var v :| Encode(v) == b;
      DecodeEncode(v);
    } else {
      DecodeSound(b);
    }
  }

  /** '#' and '|' decode to two different variants; a space is not a code. */
  lemma BlankAndNotCoded()
    ensures Decode(BlankByte) == None
    ensures Decode(BlankByte) != Decode(NotCodedByte)
    ensures !IsListed(SpaceByte) && Decode(SpaceByte) == NotCoded
  {
    EncodeDecode(BlankByte);
    EncodeDecode(SpaceByte);
  }
}

/** Kind of cartographic material (Map position 8). The table has no '#' code. */
module CartographicTypes {
  import opened Bytes

  /** One variant per listed code; NotCoded ('|') is the decode fallback. */
  datatype CartographicType =
    | SingleMap
    | MapSeries
    | MapSerial
    | Globe
    | Atlas
    | Supplement
    | Part
    | Unknown
    | Other
    | NotCoded

  /** The byte each variant is stored as (its discriminant). */
  function Encode(v: CartographicType): (b: byte)
    ensures IsCodeByte(b)
  {
    match v
    case SingleMap  => 'a' as byte
    case MapSeries  => 'b' as byte
    case MapSerial  => 'c' as byte
    case Globe      => 'd' as byte
    case Atlas      => 'e' as byte
    case Supplement => 'f' as byte
    case Part       => 'g' as byte
    case Unknown    => 'u' as byte
    case Other      => 'z' as byte
    case NotCoded   => '|' as byte
  }

  /** Total decode: the variant whose discriminant is `b`, and NotCoded for every other byte. */
  function Decode(b: byte): (v: CartographicType)
  {
    if b == 'a' as byte then SingleMap
    else if b == 'b' as byte then MapSeries
    else if b == 'c' as byte then MapSerial
    else if b == 'd' as byte then Globe
    else if b == 'e' as byte then Atlas
    else if b == 'f' as byte then Supplement
    else if b == 'g' as byte then Part
    else if b == 'u' as byte then Unknown
    else if b == 'z' as byte then Other
    else NotCoded
  }

  /** Decode never invents a variant: its result is NotCoded or a variant whose byte is `b`. */
  lemma DecodeSound(b: byte)
    ensures Decode(b) == NotCoded || Encode(Decode(b)) == b
  {
    match Decode(b)
    case SingleMap =>
    case MapSeries =>
    case MapSerial =>
    case Globe =>
    case Atlas =>
    case Supplement =>
    case Part =>
    case Unknown =>
    case Other =>
    case NotCoded =>
  }

  /** `b` is the discriminant of some variant. */
  ghost predicate IsListed(b: byte) {
    exists v :: Encode(v) == b
  }

  /** Decoding a variant's own byte gives the variant back. */
  lemma DecodeEncode(v: CartographicType)
    ensures Decode(Encode(v)) == v
  {
    match v
    case SingleMap =>
    case MapSeries =>
    case MapSerial =>
    case Globe =>
    case Atlas =>
    case Supplement =>
    case Part =>
    case Unknown =>
    case Other =>
    case NotCoded =>
  }

  /** No two variants share a byte. */
  lemma EncodeInjective(v: CartographicType, w: CartographicType)
    ensures Encode(v) == Encode(w) ==> v == w
  {
    DecodeEncode(v);
    DecodeEncode(w);
  }

  /** Re-encoding a decoded byte gives it back exactly when it is listed; any other byte becomes NotCoded. */
  lemma EncodeDecode(b: byte)
    ensures IsListed(b) ==> Encode(Decode(b)) == b
    ensures !IsListed(b) ==> Decode(b) == NotCoded && Encode(Decode(b)) == NotCodedByte
  {
    if IsListed(b) {
      var v :| Encode(v) == b;
      DecodeEncode(v);
    } else {
      DecodeSound(b);
    }
  }

  /** Neither '#' nor a space is listed: both decode to NotCoded. */
  lemma BlankIsNotCoded()
    ensures !IsListed(BlankByte) && Decode(BlankByte) == NotCoded
    ensures !IsListed(SpaceByte) && Decode(SpaceByte) == NotCoded
  {
    EncodeDecode(BlankByte);
    EncodeDecode(SpaceByte);
  }
}

/** Special format characteristics of a map (Map positions 16-17, one code per position). */
module SpecialFormats {
  import opened Bytes

  /** One variant per listed code; NotCoded ('|') is the decode fallback. */
  datatype SpecialFormatCharacteristics =
    | None
    | Manuscript
    | PictureCard
    | Calendar
    | Puzzle
    | Game
    | WallMap
    | PlayingCards
    | LooseLeaf
    | Other
    | NotCoded

  /** The byte each variant is stored as (its discriminant). */
  function Encode(v: SpecialFormatCharacteristics): (b: byte)
    ensures IsCodeByte(b)
  {
    match v
    case None         => '#' as byte
    case Manuscript   => 'e' as byte
    case PictureCard  => 'j' as byte
    case Calendar     => 'k' as byte
    case Puzzle       => 'l' as byte
    case Game         => 'n' as byte
    case WallMap      => 'o' as byte
    case PlayingCards => 'p' as byte
    case LooseLeaf    => 'r' as byte
    case Other        => 'z' as byte
    case NotCoded     => '|' as byte
  }

  /** Total decode: the variant whose discriminant is `b`, and NotCoded for every other byte. */
  function Decode(b: byte): (v: SpecialFormatCharacteristics)
  {
    if b == '#' as byte then None
    else if b == 'e' as byte then Manuscript
    else if b == 'j' as byte then PictureCard
    else if b == 'k' as byte then Calendar
    else if b == 'l' as byte then Puzzle
    else if b == 'n' as byte then Game
    else if b == 'o' as byte then WallMap
    else if b == 'p' as byte then PlayingCards
    else if b == 'r' as byte then LooseLeaf
    else if b == 'z' as byte then Other
    else NotCoded
  }

  /** Decode never invents a variant: its result is NotCoded or a variant whose byte is `b`. */
  lemma DecodeSound(b: byte)
    ensures Decode(b) == NotCoded || Encode(Decode(b)) == b
  {
    match Decode(b)
    case None =>
    case Manuscript =>
    case PictureCard =>
    case Calendar =>
    case Puzzle =>
    case Game =>
    case WallMap =>
    case PlayingCards =>
    case LooseLeaf =>
    case Other =>
    case NotCoded =>
  }

  /** `b` is the discriminant of some variant. */
  ghost predicate IsListed(b: byte) {
    exists v :: Encode(v) == b
  }

  /** Decoding a variant's own byte gives the variant back. */
  lemma DecodeEncode(v: SpecialFormatCharacteristics)
    ensures Decode(Encode(v)) == v
  {
    match v
    case None =>
    case Manuscript =>
    case PictureCard =>
    case Calendar =>
    case Puzzle =>
    case Game =>
    case WallMap =>
    case PlayingCards =>
    case LooseLeaf =>
    case Other =>
    case NotCoded =>
  }

  /** No two variants share a byte. */
  lemma EncodeInjective(v: SpecialFormatCharacteristics, w: SpecialFormatCharacteristics)
    ensures Encode(v) == Encode(w) ==> v == w
  {
    DecodeEncode(v);
    DecodeEncode(w);
  }

  /** Re-encoding a decoded byte gives it back exactly when it is listed; any other byte becomes NotCoded. */
  lemma EncodeDecode(b: byte)
    ensures IsListed(b) ==> Encode(Decode(b)) == b
    ensures !IsListed(b) ==> Decode(b) == NotCoded && Encode(Decode(b)) == NotCodedByte
  {
    if IsListed(b) {
      var v :| Encode(v) == b;
      DecodeEncode(v);
    } else {
      DecodeSound(b);
    }
  }

  /** '#' and '|' decode to two different variants; a space is not a code. */
  lemma BlankAndNotCoded()
    ensures Decode(BlankByte) == None
    ensures Decode(BlankByte) != Decode(NotCodedByte)
    ensures !IsListed(SpaceByte) && Decode(SpaceByte) == NotCoded
  {
    EncodeDecode(BlankByte);
    EncodeDecode(SpaceByte);
  }
}
