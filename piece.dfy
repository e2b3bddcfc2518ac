/**
 * The `str`-based piece of src/piece.rs, which records its length both in
 * bytes and in characters.
 */
module StrPiece {
  import opened StrBuffer

  /** Rust's half-open `std::ops::Range<usize>`. */
  datatype Range = Range(start: nat, end: nat) {
    /** `ExactSizeIterator::len`: the number of indices in the range. */
    function Len(): nat {
      if start < end then end - start else 0
    }

    /** `Range::is_empty` */
    predicate IsEmpty() {
      !(start < end)
    }
  }

  datatype Piece = Piece(buffer: Buffer, start: nat, lenBytes: nat, lenChars: nat) {
    /** `byte_range()`: the bytes of the buffer the piece covers, from its
        start, as many as its length in bytes, and empty exactly when that
        length is 0. */
    function ByteRange(): (r: Range)
      ensures r.start == start && r.start <= r.end
      ensures r.Len() == lenBytes
      ensures r.IsEmpty() <==> lenBytes == 0
    {
      Range(start, start + lenBytes)
    }
  }
}
