/**
 * The line-break kinds of src/line.rs and their sizes. The kinds other than
 * `Lf` and `Crlf` exist only when the crate's `unicode-line-breaks` feature
 * is enabled; the set is the newline set of section 5.8 of the Unicode
 * Standard.
 */
module Line {
  import opened Utf8

  /** The string constants the source measures with `str::len`. */
  const LF: string := "\U{000A}"
  const CRLF: string := "\U{000D}\U{000A}"
  const VT: string := "\U{000B}"
  const FF: string := "\U{000C}"
  const CR: string := "\U{000D}"
  const NEL: string := "\U{0085}"
  const LS: string := "\U{2028}"
  const PS: string := "\U{2029}"

  datatype Break = Lf | Crlf | Vt | Ff | Cr | Nel | Ls | Ps {

    /** The variants that exist without the `unicode-line-breaks` feature. */
    predicate InDefaultSet() {
      Lf? || Crlf?
    }

    /** The characters of this break. */
    function Str(): string {
      match this
      case Lf => LF
      case Crlf => CRLF
      case Vt => VT
      case Ff => FF
      case Cr => CR
      case Nel => NEL
      case Ls => LS
      case Ps => PS
    }

    /** The bytes of this break in a UTF-8 text. */
    function Encoding(): seq<u8> {
      Encode(Str())
    }

    /** `len_chars`: the number of characters this break takes. */
    function LenChars(): (n: nat)
      ensures n == |Str()|
      ensures n == 2 <==> Crlf?
    {
      match this
      case Crlf => 2
      case _ => 1
    }

    /** `len_bytes`: the number of bytes this break takes, the UTF-8 length
        of its constant. */
    function LenBytes(): (n: nat)
      ensures n == |Encoding()|
      ensures n >= LenChars()
      ensures n == (match this
                    case Lf => 1 case Vt => 1 case Ff => 1 case Cr => 1
                    case Crlf => 2 case Nel => 2
                    case Ls => 3 case Ps => 3)
    {
      match this
      case Lf => |Encode(LF)|
      case Crlf => |Encode(CRLF)|
      case Vt => |Encode(VT)|
      case Ff => |Encode(FF)|
      case Cr => |Encode(CR)|
      case Nel => |Encode(NEL)|
      case Ls => |Encode(LS)|
      case Ps => |Encode(PS)|
    }
  }

  /** Each break constant is a valid `&str`: its bytes are well-formed
      UTF-8. */
  lemma EncodingValid(k: Break)
    ensures Valid(k.Encoding())
  {
    EncodeValid(k.Str());
  }
}
