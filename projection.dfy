/**
 * Map projection (Map positions 5-6), the one table keyed by two characters.
 * Each code is a pair of bytes packed into one 16-bit key, first byte high.
 */
module Projections {
  import opened Bytes

  /** One variant per listed two-character code; NotCoded ("||") is the decode fallback. */
  datatype Projection =
    | NotSpecified
    | Aitoff
    | Gnomic
    | LambertAzimuthal
    | Orthographic
    | AzimuthalEquidistant
    | Stereographic
    | GeneralVerticalNearSided
    | ModifiedStereographicAlaska
    | ChamberlinTrimetric
    | PolarStereographic
    | AzimuthalUnknown
    | AzimuthalOther
    | Gall
    | GoodeHomolographic
    | LambertCylindrical
    | Mercator
    | Miller
    | Mollweide
    | Sinusoidal
    | TransverseMercator
    | GaussKruger
    | Equirectangular
    | Krovak
    | CassiniSoldner
    | ObliqueMercator
    | Robinson
    | SpaceObliqueMercator
    | CylindricalUnknown
    | CylindricalOther
    | AlbersEqualArea
    | Bonne
    | LambertConformalConic
    | EquidistantConic
    | Polyconic
    | ConicUnknown
    | ConicOther
    | Armadillo
    | Butterfly
    | Eckert
    | GoodeHomolosine
    | MillerBipolarObliqueConformal
    | VanDerGrinten
    | Dimaxion
    | Cordiform
    | LambertConformal
    | Other
    | NotCoded

  /**
   * The 16-bit key of the byte pair (hi, lo): `(hi as u16) << 8 | lo as u16`.
   * The shifted high byte and lo share no bit, so the or is a sum: hi * 0x100 + lo.
   */
  function Pack(hi: byte, lo: byte): u16 {
    hi * 0x100 + lo
  }

  /** The byte pair a key was packed from: the high byte first. */
  function Unpack(k: u16): (byte, byte) {
    (k / 0x100, k % 0x100)
  }

  /** Unpacking recovers both bytes of a pair. */
  lemma UnpackPack(hi: byte, lo: byte)
    ensures Unpack(Pack(hi, lo)) == (hi, lo)
  {
  }

  /** Every 16-bit key is the packing of exactly the pair it unpacks to. */
  lemma PackUnpack(k: u16)
    ensures Pack(Unpack(k).0, Unpack(k).1) == k
  {
  }

  /** Packing is injective: two different pairs never share a key. */
  lemma PackInjective(hi: byte, lo: byte, hi': byte, lo': byte)
    ensures Pack(hi, lo) == Pack(hi', lo') ==> hi == hi' && lo == lo'
  {
    UnpackPack(hi, lo);
    UnpackPack(hi', lo');
  }

  /** The two characters of each variant's code, both from the code alphabet. */
  function Characters(v: Projection): (c: (char, char))
    ensures IsCodeChar(c.0) && IsCodeChar(c.1)
  {
    match v
    case NotSpecified                  => ('#', '#')
    case Aitoff                        => ('a', 'a')
    case Gnomic                        => ('a', 'b')
    case LambertAzimuthal              => ('a', 'c')
    case Orthographic                  => ('a', 'd')
    case AzimuthalEquidistant          => ('a', 'e')
    case Stereographic                 => ('a', 'f')
    case GeneralVerticalNearSided      => ('a', 'g')
    case ModifiedStereographicAlaska   => ('a', 'm')
    case ChamberlinTrimetric           => ('a', 'n')
    case PolarStereographic            => ('a', 'p')
    case AzimuthalUnknown              => ('a', 'u')
    case AzimuthalOther                => ('a', 'z')
    case Gall                          => ('b', 'a')
    case GoodeHomolographic            => ('b', 'b')
    case LambertCylindrical            => ('b', 'c')
    case Mercator                      => ('b', 'd')
    case Miller                        => ('b', 'e')
    case Mollweide                     => ('b', 'f')
    case Sinusoidal                    => ('b', 'g')
    case TransverseMercator            => ('b', 'h')
    case GaussKruger                   => ('b', 'i')
    case Equirectangular               => ('b', 'j')
    case Krovak                        => ('b', 'k')
    case CassiniSoldner                => ('b', 'l')
    case ObliqueMercator               => ('b', 'o')
    case Robinson                      => ('b', 'r')
    case SpaceObliqueMercator          => ('b', 's')
    case CylindricalUnknown            => ('b', 'u')
    case CylindricalOther              => ('b', 'z')
    case AlbersEqualArea               => ('c', 'a')
    case Bonne                         => ('c', 'b')
    case LambertConformalConic         => ('c', 'c')
    case EquidistantConic              => ('c', 'e')
    case Polyconic                     => ('c', 'p')
    case ConicUnknown                  => ('c', 'u')
    case ConicOther                    => ('c', 'z')
    case Armadillo                     => ('d', 'a')
    case Butterfly                     => ('d', 'b')
    case Eckert                        => ('d', 'c')
    case GoodeHomolosine               => ('d', 'd')
    case MillerBipolarObliqueConformal => ('d', 'e')
    case VanDerGrinten                 => ('d', 'f')
    case Dimaxion                      => ('d', 'g')
    case Cordiform                     => ('d', 'h')
    case LambertConformal              => ('d', 'l')
    case Other                         => ('z', 'z')
    case NotCoded                      => ('|', '|')
  }

  /** The key each variant is stored as (its discriminant): the packing of its two characters. */
  function Encode(v: Projection): (k: u16)
    ensures Unpack(k) == (Characters(v).0 as byte, Characters(v).1 as byte)
  {
    var (hi, lo) := Characters(v);
    UnpackPack(hi as byte, lo as byte);
    Pack(hi as byte, lo as byte)
  }

  /**
   * Total decode: the variant whose discriminant is `k`, and NotCoded for every other key.
   * Keys are compared through the pair they unpack to, which is the same test because
   * packing is a bijection (UnpackPack, PackUnpack).
   */
  function Decode(k: u16): Projection {
    var (hi, lo) := Unpack(k);
    DecodeCharacters(hi as char, lo as char)
  }

  /**
   * The variant whose code is the character pair (hi, lo), and NotCoded for every other pair.
   * The pairs are looked up by their first character, which sorts the projections into
   * azimuthal ('a'), cylindrical ('b'), conic ('c') and other ('d') ones.
   */
  function DecodeCharacters(hi: char, lo: char): Projection {
    match hi
    case '#' => if lo == '#' then NotSpecified else NotCoded
    case 'a' => DecodeAzimuthal(lo)
    case 'b' => DecodeCylindrical(lo)
    case 'c' => DecodeConic(lo)
    case 'd' => DecodeOtherProjection(lo)
    case 'z' => if lo == 'z' then Other else NotCoded
    case _ => NotCoded
  }

  /** The azimuthal projection whose code is 'a' followed by `lo`, and NotCoded when there is none. */
  function DecodeAzimuthal(lo: char): Projection {
    if lo == 'a' then Aitoff
    else if lo == 'b' then Gnomic
    else if lo == 'c' then LambertAzimuthal
    else if lo == 'd' then Orthographic
    else if lo == 'e' then AzimuthalEquidistant
    else if lo == 'f' then Stereographic
    else if lo == 'g' then GeneralVerticalNearSided
    else if lo == 'm' then ModifiedStereographicAlaska
    else if lo == 'n' then ChamberlinTrimetric
    else if lo == 'p' then PolarStereographic
    else if lo == 'u' then AzimuthalUnknown
    else if lo == 'z' then AzimuthalOther
    else NotCoded
  }

  /** The azimuthal decode never invents a variant. */
  lemma DecodeAzimuthalSound(lo: char)
    ensures DecodeAzimuthal(lo) == NotCoded || Characters(DecodeAzimuthal(lo)) == ('a', lo)
  {
  }

  /** The cylindrical projection whose code is 'b' followed by `lo`, and NotCoded when there is none. */
  function DecodeCylindrical(lo: char): Projection {
    if lo == 'a' then Gall
    else if lo == 'b' then GoodeHomolographic
    else if lo == 'c' then LambertCylindrical
    else if lo == 'd' then Mercator
    else if lo == 'e' then Miller
    else if lo == 'f' then Mollweide
    else if lo == 'g' then Sinusoidal
    else if lo == 'h' then TransverseMercator
    else if lo == 'i' then GaussKruger
    else if lo == 'j' then Equirectangular
    else if lo == 'k' then Krovak
    else if lo == 'l' then CassiniSoldner
    else if lo == 'o' then ObliqueMercator
    else if lo == 'r' then Robinson
    else if lo == 's' then SpaceObliqueMercator
    else if lo == 'u' then CylindricalUnknown
    else if lo == 'z' then CylindricalOther
    else NotCoded
  }

  /** The cylindrical decode never invents a variant. */
  lemma DecodeCylindricalSound(lo: char)
    ensures DecodeCylindrical(lo) == NotCoded || Characters(DecodeCylindrical(lo)) == ('b', lo)
  {
  }

  /** The conic projection whose code is 'c' followed by `lo`, and NotCoded when there is none. */
  function DecodeConic(lo: char): Projection {
    if lo == 'a' then AlbersEqualArea
    else if lo == 'b' then Bonne
    else if lo == 'c' then LambertConformalConic
    else if lo == 'e' then EquidistantConic
    else if lo == 'p' then Polyconic
    else if lo == 'u' then ConicUnknown
    else if lo == 'z' then ConicOther
    else NotCoded
  }

  /** The conic decode never invents a variant. */
  lemma DecodeConicSound(lo: char)
    ensures DecodeConic(lo) == NotCoded || Characters(DecodeConic(lo)) == ('c', lo)
  {
  }

  /** The other projection whose code is 'd' followed by `lo`, and NotCoded when there is none. */
  function DecodeOtherProjection(lo: char): Projection {
    if lo == 'a' then Armadillo
    else if lo == 'b' then Butterfly
    else if lo == 'c' then Eckert
    else if lo == 'd' then GoodeHomolosine
    else if lo == 'e' then MillerBipolarObliqueConformal
    else if lo == 'f' then VanDerGrinten
    else if lo == 'g' then Dimaxion
    else if lo == 'h' then Cordiform
    else if lo == 'l' then LambertConformal
    else NotCoded
  }

  /** The other-projection decode never invents a variant. */
  lemma DecodeOtherProjectionSound(lo: char)
    ensures DecodeOtherProjection(lo) == NotCoded || Characters(DecodeOtherProjection(lo)) == ('d', lo)
  {
  }

  /** Decode of the two bytes at a pair of positions. */
  function DecodePair(hi: byte, lo: byte): Projection {
    Decode(Pack(hi, lo))
  }

  /** At the level of characters, decode never invents a variant either. */
  lemma DecodeCharactersSound(hi: char, lo: char)
    ensures DecodeCharacters(hi, lo) == NotCoded || Characters(DecodeCharacters(hi, lo)) == (hi, lo)
  {
    match hi
    case '#' =>
    case 'a' => DecodeAzimuthalSound(lo);
    case 'b' => DecodeCylindricalSound(lo);
    case 'c' => DecodeConicSound(lo);
    case 'd' => DecodeOtherProjectionSound(lo);
    case 'z' =>
    case _ =>
  }

  /** Decode never invents a variant: its result is NotCoded or a variant whose key is `k`. */
  lemma DecodeSound(k: u16)
    ensures Decode(k) == NotCoded || Encode(Decode(k)) == k
  {
    var (hi, lo) := Unpack(k);
    DecodeCharactersSound(hi as char, lo as char);
    PackUnpack(k);
  }

  /** `k` is the discriminant of some variant. */
  ghost predicate IsListed(k: u16) {
    exists v :: Encode(v) == k
  }

  /** Each variant's two characters decode back to it. */
  lemma DecodeCharactersOfCharacters(v: Projection)
    ensures DecodeCharacters(Characters(v).0, Characters(v).1) == v
  {
    match v
    case NotSpecified =>
    case Aitoff =>
    case Gnomic =>
    case LambertAzimuthal =>
    case Orthographic =>
    case AzimuthalEquidistant =>
    case Stereographic =>
    case GeneralVerticalNearSided =>
    case ModifiedStereographicAlaska =>
    case ChamberlinTrimetric =>
    case PolarStereographic =>
    case AzimuthalUnknown =>
    case AzimuthalOther =>
    case Gall =>
    case GoodeHomolographic =>
    case LambertCylindrical =>
    case Mercator =>
    case Miller =>
    case Mollweide =>
    case Sinusoidal =>
    case TransverseMercator =>
    case GaussKruger =>
    case Equirectangular =>
    case Krovak =>
    case CassiniSoldner =>
    case ObliqueMercator =>
    case Robinson =>
    case SpaceObliqueMercator =>
    case CylindricalUnknown =>
    case CylindricalOther =>
    case AlbersEqualArea =>
    case Bonne =>
    case LambertConformalConic =>
    case EquidistantConic =>
    case Polyconic =>
    case ConicUnknown =>
    case ConicOther =>
    case Armadillo =>
    case Butterfly =>
    case Eckert =>
    case GoodeHomolosine =>
    case MillerBipolarObliqueConformal =>
    case VanDerGrinten =>
    case Dimaxion =>
    case Cordiform =>
    case LambertConformal =>
    case Other =>
    case NotCoded =>
  }

  /** Decoding a variant's own key gives the variant back. */
  lemma DecodeEncode(v: Projection)
    ensures Decode(Encode(v)) == v
  {
    DecodeCharactersOfCharacters(v);
  }

  /** No two variants share a key. */
  lemma EncodeInjective(v: Projection, w: Projection)
    ensures Encode(v) == Encode(w) ==> v == w
  {
    DecodeEncode(v);
    DecodeEncode(w);
  }

  /** Re-encoding a decoded key gives it back exactly when it is listed; any other key becomes NotCoded. */
  lemma EncodeDecode(k: u16)
    ensures IsListed(k) ==> Encode(Decode(k)) == k
    ensures !IsListed(k) ==> Decode(k) == NotCoded && Encode(Decode(k)) == Pack(NotCodedByte, NotCodedByte)
  {
    if IsListed(k) {
      var v :| Encode(v) == k;
      DecodeEncode(v);
    } else {
      DecodeSound(k);
    }
  }

  /**
   * "##" is NotSpecified and "||" is NotCoded, two different variants; a pair mixing a
   * letter with '#', such as "a#", is not listed and falls back to NotCoded.
   */
  lemma BlankAndNotCoded()
    ensures DecodePair(BlankByte, BlankByte) == NotSpecified
    ensures DecodePair(NotCodedByte, NotCodedByte) == NotCoded
    ensures !IsListed(Pack('a' as byte, BlankByte)) && DecodePair('a' as byte, BlankByte) == NotCoded
    ensures !IsListed(Pack(SpaceByte, SpaceByte)) && DecodePair(SpaceByte, SpaceByte) == NotCoded
  {
    UnpackPack(BlankByte, BlankByte);
    UnpackPack(NotCodedByte, NotCodedByte);
    UnpackPack('a' as byte, BlankByte);
    UnpackPack(SpaceByte, SpaceByte);
    EncodeDecode(Pack('a' as byte, BlankByte));
    EncodeDecode(Pack(SpaceByte, SpaceByte));
  }
}
