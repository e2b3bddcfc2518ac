/**
 * The `str`-based buffers of src/buffer.rs: the borrowed original text and
 * the owned add buffer, each a UTF-8 byte sequence.
 */
module StrBuffer {
  import Utf8

  /** Which buffer a piece points into. */
  datatype Buffer = Original | Add

  datatype Buffers = Buffers(original: seq<Utf8.u8>, add: seq<Utf8.u8>) {

    /** Both buffers hold valid UTF-8, as every Rust `str` and `String` does. */
    ghost predicate Valid() {
      Utf8.Valid(original) && Utf8.Valid(add)
    }

    /** `Buffers::from_initial(initial)`: `initial` as the original text and
        an empty add buffer. */
    static function FromInitial(initial: seq<Utf8.u8>): (r: Buffers)
      ensures r.Index(Original) == initial && r.Index(Add) == []
      ensures r.Valid() <==> Utf8.Valid(initial)
    {
      Buffers(initial, [])
    }

    /** `buffers[b]`: the text of buffer `b`. */
    function Index(b: Buffer): (r: seq<Utf8.u8>)
      ensures Valid() ==> Utf8.Valid(r)
    {
      match b
      case Original => original
      case Add => add
    }
  }
}
