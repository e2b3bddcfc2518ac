/**
 * The slices of src/slice.rs: a start and an end position, each a piece
 * index and a byte offset into that piece, over the pieces and buffers of
 * a table. `iter` yields the slice's bytes piece by piece, and `Display`
 * writes them out in order.
 */
module Slices {
  import opened Utf8
  import opened StrBuffer
  import opened StrPiece

  /** `(piece_idx, byte_idx)` */
  type Position = (nat, nat)

  /** The part of the piece table a slice reads: its pieces and buffers. */
  datatype Table = Table(pieces: seq<Piece>, buffers: Buffers)

  /** `Slice { start, end, table }`, as `Slice::new` builds it; `start` is
      inclusive and `end` exclusive. */
  datatype Slice = Slice(start: Position, end: Position, table: Table)

  predicate PieceInBounds(b: Buffers, p: Piece) {
    p.start + p.lenBytes <= |b.Index(p.buffer)|
  }

  /** The bytes a piece stands for. */
  function PieceBytes(b: Buffers, p: Piece): seq<u8>
    requires PieceInBounds(b, p)
  {
    b.Index(p.buffer)[p.start .. p.start + p.lenBytes]
  }

  ghost predicate AllInBounds(b: Buffers, ps: seq<Piece>) {
    forall j :: 0 <= j < |ps| ==> PieceInBounds(b, ps[j])
  }

  /** The document a run of pieces stands for. */
  function Text(b: Buffers, ps: seq<Piece>): seq<u8>
    requires AllInBounds(b, ps)
  {
    if ps == [] then [] else PieceBytes(b, ps[0]) + Text(b, ps[1..])
  }

  /** The number of bytes before `pos` in the document. */
  function Absolute(ps: seq<Piece>, pos: Position): nat
    requires pos.0 <= |ps|
  {
    TotalBytes(ps[..pos.0]) + pos.1
  }

  function TotalBytes(ps: seq<Piece>): nat {
    if ps == [] then 0 else ps[0].lenBytes + TotalBytes(ps[1..])
  }

  /** `pieces[start.0..=end.0]` does not panic. */
  predicate Visits(s: Slice) {
    s.end.0 < |s.table.pieces| && s.start.0 <= s.end.0 + 1
  }

  /** The number of pieces `iter` visits, `pieces[start.0..=end.0]`. */
  function Count(s: Slice): nat
    requires Visits(s)
  {
    s.end.0 + 1 - s.start.0
  }

  /** The `i`th visited piece. */
  function Visited(s: Slice, i: nat): Piece
    requires Visits(s) && i < Count(s)
  {
    s.table.pieces[s.start.0 + i]
  }

  /** The byte range of its buffer that `iter` takes from the `i`th
      visited piece: the first piece is cut at `start.1`, the last at
      `end.1`, and the pieces between are taken whole. When the two
      positions lie inside their pieces, the range lies inside the piece's
      own byte range. */
  function ChunkRange(s: Slice, i: nat): (r: Range)
    requires Visits(s) && i < Count(s)
    ensures var p := Visited(s, i).ByteRange();
            (i == 0 ==> s.start.1 <= Visited(s, i).lenBytes)
            && (i == Count(s) - 1 ==> s.end.1 <= Visited(s, i).lenBytes)
            ==> p.start <= r.start <= p.end && p.start <= r.end <= p.end
  {
    var piece := Visited(s, i);
    var range := piece.ByteRange();
    if i == 0 && i == Count(s) - 1 then Range(range.start + s.start.1, range.start + s.end.1)
    else if i == 0 then Range(range.start + s.start.1, range.end)
    else if i == Count(s) - 1 then Range(piece.start, range.start + s.end.1)
    else range
  }

  /** `&buffer[range]` does not panic: the range is in order, inside the
      buffer, and both its ends are character boundaries. */
  predicate CanSlice(buffer: seq<u8>, r: Range) {
    r.start <= r.end <= |buffer| && IsCharBoundary(buffer, r.start) && IsCharBoundary(buffer, r.end)
  }

  /** Iterating over `s` does not panic: the visited pieces exist, and each
      of their ranges can be sliced out of its buffer. */
  ghost predicate IterDefined(s: Slice) {
    && Visits(s)
    && forall i :: 0 <= i < Count(s) ==>
         CanSlice(s.table.buffers.Index(Visited(s, i).buffer), ChunkRange(s, i))
  }

  /** The bytes `iter` takes from the `i`th visited piece, before dropping
      empty ones. */
  function Chunk(s: Slice, i: nat): seq<u8>
    requires IterDefined(s) && i < Count(s)
  {
    var r := ChunkRange(s, i);
    s.table.buffers.Index(Visited(s, i).buffer)[r.start .. r.end]
  }

  /** The chunk of every visited piece, empty ones included: the `map`
      half of `iter`'s `filter_map`. */
  function Chunks(s: Slice): (chunks: seq<seq<u8>>)
    requires IterDefined(s)
    ensures |chunks| == Count(s)
    ensures forall j :: 0 <= j < Count(s) ==> chunks[j] == Chunk(s, j)
  {
    seq(Count(s), j requires 0 <= j < Count(s) && IterDefined(s) => Chunk(s, j))
  }

  /** The chunks that are not empty, in order: the filter half of `iter`'s
      `filter_map`. */
  function NonEmpty(chunks: seq<seq<u8>>): (r: seq<seq<u8>>)
    ensures forall c :: c in r ==> c != []
    ensures |r| <= |chunks|
  {
    if chunks == [] then []
    else (if chunks[0] == [] then [] else [chunks[0]]) + NonEmpty(chunks[1..])
  }

  /** `iter()`: no chunk is empty, and there is at most one per visited
      piece. */
  function Iter(s: Slice): (chunks: seq<seq<u8>>)
    requires IterDefined(s)
    ensures forall c :: c in chunks ==> c != []
    ensures |chunks| <= Count(s)
  {
    NonEmpty(Chunks(s))
  }

  function Flatten(chunks: seq<seq<u8>>): seq<u8> {
    if chunks == [] then [] else chunks[0] + Flatten(chunks[1..])
  }

  /** `Display`: the chunks written out one after the other. */
  function Display(s: Slice): seq<u8>
    requires IterDefined(s)
  {
    Flatten(Iter(s))
  }
}

module SliceProperties {
  import opened Utf8
  import opened StrBuffer
  import opened StrPiece
  import opened Slices

  /** The chunks from the `i`th visited piece on are its chunk, then
      those from the next one on. */
  lemma ChunksStep(s: Slice, i: nat)
    requires IterDefined(s) && i < Count(s)
    ensures Flatten(Chunks(s)[i..]) == Chunk(s, i) + Flatten(Chunks(s)[i + 1..])
  {
    var chunks := Chunks(s)[i..];
    assert chunks[0] == Chunk(s, i);
    assert chunks[1..] == Chunks(s)[i + 1..];
  }

  /** Dropping empty chunks does not change what is written. */
  lemma {:induction false} FlattenNonEmpty(chunks: seq<seq<u8>>)
    ensures Flatten(NonEmpty(chunks)) == Flatten(chunks)
  {
    if chunks != [] {
      var c, rest := chunks[0], NonEmpty(chunks[1..]);
      FlattenNonEmpty(chunks[1..]);
      if c == [] {
        assert NonEmpty(chunks) == rest;
        assert Flatten(chunks) == [] + Flatten(chunks[1..]);
      } else {
        assert NonEmpty(chunks) == [c] + rest;
        assert ([c] + rest)[1..] == rest;
      }
    }
  }

  /** A slice displays all of its visited pieces' chunks, in order. */
  lemma DisplayChunks(s: Slice)
    requires IterDefined(s)
    ensures Display(s) == Flatten(Chunks(s)[0..])
  {
    assert Chunks(s)[0..] == Chunks(s);
    FlattenNonEmpty(Chunks(s));
  }

  /** The filter keeps exactly the chunks that are not empty. */
  lemma {:induction false} NonEmptyMembers(chunks: seq<seq<u8>>, c: seq<u8>)
    ensures c in NonEmpty(chunks) <==> c in chunks && c != []
  {
    if chunks != [] {
      var head, rest := chunks[0], NonEmpty(chunks[1..]);
      NonEmptyMembers(chunks[1..], c);
      assert chunks == [head] + chunks[1..];
      if head == [] {
        assert NonEmpty(chunks) == rest;
      } else {
        assert NonEmpty(chunks) == [head] + rest;
      }
    }
  }

  lemma {:induction false} TextAppend(b: Buffers, xs: seq<Piece>, ys: seq<Piece>)
    requires AllInBounds(b, xs) && AllInBounds(b, ys)
    ensures AllInBounds(b, xs + ys)
    ensures Text(b, xs + ys) == Text(b, xs) + Text(b, ys)
  {
    if xs == [] {
      assert xs + ys == ys;
    } else {
      var p, rest := xs[0], xs[1..];
      assert xs + ys == [p] + (rest + ys);
      assert AllInBounds(b, rest);
      TextAppend(b, rest, ys);
      ConsInBounds(b, p, rest + ys);
      Associate3(PieceBytes(b, p), Text(b, rest), Text(b, ys));
    }
  }

  lemma {:induction false} TextLength(b: Buffers, ps: seq<Piece>)
    requires AllInBounds(b, ps)
    ensures |Text(b, ps)| == TotalBytes(ps)
  {
    if ps != [] {
      TextLength(b, ps[1..]);
    }
  }

  /** A middle piece's chunk is all of its bytes. */
  lemma MiddleChunk(s: Slice, i: nat)
    requires IterDefined(s) && 0 < i < Count(s) - 1
    ensures PieceInBounds(s.table.buffers, Visited(s, i))
    ensures Chunk(s, i) == PieceBytes(s.table.buffers, Visited(s, i))
  {
    assert CanSlice(s.table.buffers.Index(Visited(s, i).buffer), ChunkRange(s, i));
  }

  lemma ConsInBounds(b: Buffers, p: Piece, ps: seq<Piece>)
    requires PieceInBounds(b, p) && AllInBounds(b, ps)
    ensures AllInBounds(b, [p] + ps)
    ensures Text(b, [p] + ps) == PieceBytes(b, p) + Text(b, ps)
  {
    assert ([p] + ps)[1..] == ps;
  }

  /** The pieces strictly between the first and the last visited one,
      from the `i`th visited on. */
  function Middle(s: Slice, i: nat): seq<Piece>
    requires Visits(s) && 0 < i < Count(s)
  {
    s.table.pieces[s.start.0 + i .. s.end.0]
  }

  lemma MiddleCons(s: Slice, i: nat)
    requires Visits(s) && 0 < i < Count(s) - 1
    ensures Middle(s, i) == [Visited(s, i)] + Middle(s, i + 1)
  {
  }

  /** The chunks of the middle pieces from the `i`th on, then the last
      chunk, are the text of those pieces followed by the last chunk. */
  lemma {:induction false} MiddleChunks(s: Slice, i: nat)
    requires IterDefined(s) && 0 < i < Count(s)
    ensures AllInBounds(s.table.buffers, Middle(s, i))
    ensures Flatten(Chunks(s)[i..]) == Text(s.table.buffers, Middle(s, i)) + Chunk(s, Count(s) - 1)
    decreases Count(s) - i
  {
    var b := s.table.buffers;
    ChunksStep(s, i);
    if i == Count(s) - 1 {
      assert Middle(s, i) == [];
      assert Chunks(s)[i + 1..] == [];
    } else {
      MiddleChunk(s, i);
      MiddleChunks(s, i + 1);
      MiddleCons(s, i);
      ConsInBounds(b, Visited(s, i), Middle(s, i + 1));
      Associate3(Chunk(s, i), Text(b, Middle(s, i + 1)), Chunk(s, Count(s) - 1));
    }
  }

  /** The document splits around its `a`th piece. */
  lemma SplitAt(b: Buffers, ps: seq<Piece>, a: nat)
    requires AllInBounds(b, ps) && a < |ps|
    ensures AllInBounds(b, ps[..a]) && AllInBounds(b, ps[a + 1..])
    ensures Text(b, ps) == Text(b, ps[..a]) + PieceBytes(b, ps[a]) + Text(b, ps[a + 1..])
    ensures TotalBytes(ps[..a]) == |Text(b, ps[..a])|
  {
    var left, right := ps[..a], ps[a + 1..];
    forall j | 0 <= j < |left| ensures PieceInBounds(b, left[j]) {
      assert left[j] == ps[j];
    }
    forall j | 0 <= j < |right| ensures PieceInBounds(b, right[j]) {
      assert right[j] == ps[a + 1 + j];
    }
    var tail := [ps[a]] + right;
    assert ps == left + tail;
    ConsInBounds(b, ps[a], right);
    TextAppend(b, left, tail);
    Associate3(Text(b, left), PieceBytes(b, ps[a]), Text(b, right));
    TextLength(b, left);
  }

  lemma SliceOne(x: seq<u8>, a: seq<u8>, y: seq<u8>, i: nat, j: nat)
    requires i <= j <= |a|
    ensures (x + a + y)[|x| + i .. |x| + j] == a[i..j]
  {
  }

  lemma SpanOfParts(d: seq<u8>, doc: seq<u8>, lo: nat, hi: nat,
                    x: seq<u8>, a: seq<u8>, m: seq<u8>, c: seq<u8>, y: seq<u8>, i: nat, j: nat)
    requires i <= |a| && j <= |c|
    requires doc == x + a + m + c + y && d == a[i..] + m + c[..j]
    requires lo == |x| + i && hi == |x| + |a| + |m| + j
    ensures lo <= hi <= |doc| && d == doc[lo..hi]
  {
    SliceSpan(x, a, m, c, y, i, j);
  }

  lemma SliceSpan(x: seq<u8>, a: seq<u8>, m: seq<u8>, c: seq<u8>, y: seq<u8>, i: nat, j: nat)
    requires i <= |a| && j <= |c|
    ensures (x + a + m + c + y)[|x| + i .. |x| + |a| + |m| + j] == a[i..] + m + c[..j]
  {
    var w := x + a + m + c + y;
    var lo, hi := |x| + i, |x| + |a| + |m| + j;
    forall k | 0 <= k < hi - lo
      ensures w[lo .. hi][k] == (a[i..] + m + c[..j])[k]
    {
    }
  }

  /** With one piece visited, its chunk runs from `start.1` to `end.1` of
      the piece. */
  lemma SingleChunk(s: Slice)
    requires IterDefined(s) && Count(s) == 1 && PieceInBounds(s.table.buffers, Visited(s, 0))
    requires s.end.1 <= Visited(s, 0).lenBytes
    ensures s.start.1 <= s.end.1
    ensures Chunk(s, 0) == PieceBytes(s.table.buffers, Visited(s, 0))[s.start.1 .. s.end.1]
  {
    var p := Visited(s, 0);
    assert CanSlice(s.table.buffers.Index(p.buffer), ChunkRange(s, 0));
    SubSlice(s.table.buffers.Index(p.buffer), p.start, p.start + p.lenBytes, s.start.1, s.end.1);
  }

  /** The first of several visited pieces gives its bytes from `start.1`
      on. */
  lemma FirstChunk(s: Slice)
    requires IterDefined(s) && Count(s) > 1 && PieceInBounds(s.table.buffers, Visited(s, 0))
    ensures s.start.1 <= Visited(s, 0).lenBytes
    ensures Chunk(s, 0) == PieceBytes(s.table.buffers, Visited(s, 0))[s.start.1 ..]
  {
    var p := Visited(s, 0);
    assert CanSlice(s.table.buffers.Index(p.buffer), ChunkRange(s, 0));
    SubSlice(s.table.buffers.Index(p.buffer), p.start, p.start + p.lenBytes, s.start.1, p.lenBytes);
  }

  /** The last of several visited pieces gives its bytes up to `end.1`. */
  lemma LastChunk(s: Slice)
    requires IterDefined(s) && Count(s) > 1
    requires PieceInBounds(s.table.buffers, Visited(s, Count(s) - 1))
    requires s.end.1 <= Visited(s, Count(s) - 1).lenBytes
    ensures Chunk(s, Count(s) - 1) == PieceBytes(s.table.buffers, Visited(s, Count(s) - 1))[.. s.end.1]
  {
    var p := Visited(s, Count(s) - 1);
    assert CanSlice(s.table.buffers.Index(p.buffer), ChunkRange(s, Count(s) - 1));
    SubSlice(s.table.buffers.Index(p.buffer), p.start, p.start + p.lenBytes, 0, s.end.1);
  }

  /** A slice of a slice is a slice of the whole. */
  lemma SubSlice(buf: seq<u8>, lo: nat, hi: nat, i: nat, j: nat)
    requires lo <= hi <= |buf| && i <= j <= hi - lo
    ensures buf[lo..hi][i..j] == buf[lo + i .. lo + j]
  {
    forall k | 0 <= k < j - i
      ensures buf[lo..hi][i..j][k] == buf[lo + i .. lo + j][k]
    {
    }
  }

  /** What a slice displays is the document's bytes from its start
      position up to its end position. */
  lemma DisplayIsRange(s: Slice)
    requires IterDefined(s) && AllInBounds(s.table.buffers, s.table.pieces)
    requires s.start.0 <= s.end.0 && s.end.1 <= s.table.pieces[s.end.0].lenBytes
    ensures Absolute(s.table.pieces, s.start) <= Absolute(s.table.pieces, s.end) <= |Text(s.table.buffers, s.table.pieces)|
    ensures Display(s) == Text(s.table.buffers, s.table.pieces)[Absolute(s.table.pieces, s.start) .. Absolute(s.table.pieces, s.end)]
  {
    if s.start.0 == s.end.0 {
      DisplayOnePiece(s);
    } else {
      DisplaySeveralPieces(s);
    }
  }

  lemma DisplayOnePiece(s: Slice)
    requires IterDefined(s) && AllInBounds(s.table.buffers, s.table.pieces)
    requires s.start.0 == s.end.0 && s.end.1 <= s.table.pieces[s.end.0].lenBytes
    ensures Absolute(s.table.pieces, s.start) <= Absolute(s.table.pieces, s.end) <= |Text(s.table.buffers, s.table.pieces)|
    ensures Display(s) == Text(s.table.buffers, s.table.pieces)[Absolute(s.table.pieces, s.start) .. Absolute(s.table.pieces, s.end)]
  {
    var b, ps, a := s.table.buffers, s.table.pieces, s.start.0;
    SplitAt(b, ps, a);
    var x, piece, y := Text(b, ps[..a]), PieceBytes(b, ps[a]), Text(b, ps[a + 1..]);
    DisplayChunks(s);
    ChunksStep(s, 0);
    assert Chunks(s)[1..] == [];
    assert Display(s) == Chunk(s, 0) + [];
    SingleChunk(s);
    assert Display(s) == piece[s.start.1 .. s.end.1];
    assert Absolute(ps, s.start) == |x| + s.start.1 && Absolute(ps, s.end) == |x| + s.end.1;
    OneSpan(Display(s), Text(b, ps), Absolute(ps, s.start), Absolute(ps, s.end), x, piece, y, s.start.1, s.end.1);
  }

  /** Bytes `i..j` of the middle part `a` of `t == x + a + y` are bytes
      `|x| + i .. |x| + j` of `t`. */
  lemma OneSpan(d: seq<u8>, t: seq<u8>, lo: nat, hi: nat, x: seq<u8>, a: seq<u8>, y: seq<u8>, i: nat, j: nat)
    requires t == x + a + y && i <= j <= |a| && d == a[i..j]
    requires lo == |x| + i && hi == |x| + j
    ensures lo <= hi <= |t| && d == t[lo..hi]
  {
    SliceOne(x, a, y, i, j);
  }

  /** The document splits around its `a`th and its `e`th piece. */
  lemma SplitTwice(b: Buffers, ps: seq<Piece>, a: nat, e: nat)
    requires AllInBounds(b, ps) && a < e < |ps|
    ensures AllInBounds(b, ps[..a]) && AllInBounds(b, ps[a + 1..e]) && AllInBounds(b, ps[e + 1..])
    ensures Text(b, ps) == Text(b, ps[..a]) + PieceBytes(b, ps[a]) + Text(b, ps[a + 1..e]) + PieceBytes(b, ps[e]) + Text(b, ps[e + 1..])
    ensures TotalBytes(ps[..a]) == |Text(b, ps[..a])|
    ensures TotalBytes(ps[..e]) == |Text(b, ps[..a])| + ps[a].lenBytes + |Text(b, ps[a + 1..e])|
  {
    SplitAt(b, ps, a);
    var rest := ps[a + 1..];
    SplitAt(b, rest, e - a - 1);
    SubRanges(ps, a, e);
    Associate(Text(b, ps[..a]) + PieceBytes(b, ps[a]), Text(b, ps[a + 1..e]), PieceBytes(b, ps[e]), Text(b, ps[e + 1..]));
    PrefixBytes(b, ps, a, e);
  }

  lemma SubRanges(ps: seq<Piece>, a: nat, e: nat)
    requires a < e < |ps|
    ensures ps[a + 1..][..e - a - 1] == ps[a + 1..e]
    ensures ps[a + 1..][e - a - 1] == ps[e] && ps[a + 1..][e - a..] == ps[e + 1..]
  {
  }

  /** The bytes before the `e`th piece are those of the pieces before the
      `a`th, the `a`th, and the pieces between. */
  lemma PrefixBytes(b: Buffers, ps: seq<Piece>, a: nat, e: nat)
    requires AllInBounds(b, ps) && a < e < |ps|
    ensures AllInBounds(b, ps[..a]) && AllInBounds(b, ps[a + 1..e])
    ensures TotalBytes(ps[..e]) == |Text(b, ps[..a])| + ps[a].lenBytes + |Text(b, ps[a + 1..e])|
  {
    var q := ps[..e];
    assert AllInBounds(b, q);
    SplitAt(b, q, a);
    assert q[..a] == ps[..a] && q[a] == ps[a] && q[a + 1..] == ps[a + 1..e];
    TextLength(b, q);
  }

  lemma Associate3(x: seq<u8>, m: seq<u8>, c: seq<u8>)
    ensures x + (m + c) == x + m + c
  {
  }

  lemma Associate(x: seq<u8>, m: seq<u8>, c: seq<u8>, y: seq<u8>)
    ensures x + (m + c + y) == x + m + c + y
  {
  }

  /** With several pieces visited, a slice displays the first chunk, the
      middle pieces whole, and the last chunk. */
  lemma DisplayParts(s: Slice)
    requires IterDefined(s) && Count(s) > 1
    ensures AllInBounds(s.table.buffers, Middle(s, 1))
    ensures Display(s) == Chunk(s, 0) + Text(s.table.buffers, Middle(s, 1)) + Chunk(s, Count(s) - 1)
  {
    DisplayChunks(s);
    ChunksStep(s, 0);
    MiddleChunks(s, 1);
    Associate3(Chunk(s, 0), Text(s.table.buffers, Middle(s, 1)), Chunk(s, Count(s) - 1));
  }

  /** With several pieces visited, a slice displays the first piece from
      `start.1` on, the middle pieces whole, and the last piece up to
      `end.1`. */
  lemma DisplayPieces(s: Slice)
    requires IterDefined(s) && AllInBounds(s.table.buffers, s.table.pieces)
    requires s.start.0 < s.end.0 && s.end.1 <= s.table.pieces[s.end.0].lenBytes
    ensures s.start.1 <= s.table.pieces[s.start.0].lenBytes
    ensures AllInBounds(s.table.buffers, s.table.pieces[s.start.0 + 1 .. s.end.0])
    ensures Display(s) == PieceBytes(s.table.buffers, s.table.pieces[s.start.0])[s.start.1..]
                          + Text(s.table.buffers, s.table.pieces[s.start.0 + 1 .. s.end.0])
                          + PieceBytes(s.table.buffers, s.table.pieces[s.end.0])[..s.end.1]
  {
    var ps, a, e := s.table.pieces, s.start.0, s.end.0;
    assert Visited(s, 0) == ps[a] && Visited(s, Count(s) - 1) == ps[e];
    FirstChunk(s);
    LastChunk(s);
    DisplayParts(s);
    assert Middle(s, 1) == ps[a + 1..e];
  }

  lemma DisplaySeveralPieces(s: Slice)
    requires IterDefined(s) && AllInBounds(s.table.buffers, s.table.pieces)
    requires s.start.0 < s.end.0 && s.end.1 <= s.table.pieces[s.end.0].lenBytes
    ensures Absolute(s.table.pieces, s.start) <= Absolute(s.table.pieces, s.end) <= |Text(s.table.buffers, s.table.pieces)|
    ensures Display(s) == Text(s.table.buffers, s.table.pieces)[Absolute(s.table.pieces, s.start) .. Absolute(s.table.pieces, s.end)]
  {
    var b, ps, a, e := s.table.buffers, s.table.pieces, s.start.0, s.end.0;
    SplitTwice(b, ps, a, e);
    DisplayPieces(s);
    var x, first, mid, last, y := Text(b, ps[..a]), PieceBytes(b, ps[a]), Text(b, ps[a + 1..e]), PieceBytes(b, ps[e]), Text(b, ps[e + 1..]);
    var lo, hi := Absolute(ps, s.start), Absolute(ps, s.end);
    assert lo == |x| + s.start.1;
    assert hi == |x| + |first| + |mid| + s.end.1;
    SpanOfParts(Display(s), Text(b, ps), lo, hi, x, first, mid, last, y, s.start.1, s.end.1);
  }

  /** `iter` yields exactly the non-empty chunks of the visited pieces. */
  lemma IterChunks(s: Slice)
    requires IterDefined(s)
    ensures forall c :: c in Iter(s) <==> exists j :: 0 <= j < Count(s) && c == Chunk(s, j) && c != []
  {
    var chunks := Chunks(s);
    forall c
      ensures c in Iter(s) <==> exists j :: 0 <= j < Count(s) && c == Chunk(s, j) && c != []
    {
      NonEmptyMembers(chunks, c);
    }
  }

  /** The positions in `chunks[from..]` of the chunks that are not empty,
      in increasing order. */
  function NonEmptyIndices(chunks: seq<seq<u8>>, from: nat): seq<nat>
    requires from <= |chunks|
    decreases |chunks| - from
  {
    if from == |chunks| then []
    else (if chunks[from] == [] then [] else [from]) + NonEmptyIndices(chunks, from + 1)
  }

  /** `chunks` with the empty ones dropped, numbered by `idx`: each kept
      chunk is the one at its index, the indices increase, and an index in
      `[from, |chunks|)` is kept exactly when its chunk is not empty. */
  ghost predicate KeptInOrder(chunks: seq<seq<u8>>, from: nat, kept: seq<seq<u8>>, idx: seq<nat>) {
    && |kept| == |idx|
    && (forall k :: 0 <= k < |idx| ==> from <= idx[k] < |chunks| && kept[k] == chunks[idx[k]])
    && (forall k, l :: 0 <= k < l < |idx| ==> idx[k] < idx[l])
    && (forall j :: from <= j < |chunks| ==> (j in idx <==> chunks[j] != []))
  }

  /** The filter keeps the non-empty chunks in their order, each once. */
  lemma {:induction false} NonEmptyInOrder(chunks: seq<seq<u8>>, from: nat)
    requires from <= |chunks|
    ensures KeptInOrder(chunks, from, NonEmpty(chunks[from..]), NonEmptyIndices(chunks, from))
    decreases |chunks| - from
  {
    if from < |chunks| {
      var c := chunks[from..];
      assert c[0] == chunks[from] && c[1..] == chunks[from + 1..];
      NonEmptyInOrder(chunks, from + 1);
      var kept, idx := NonEmpty(chunks[from + 1..]), NonEmptyIndices(chunks, from + 1);
      if chunks[from] == [] {
        assert NonEmpty(c) == [] + kept && [] + kept == kept;
        assert NonEmptyIndices(chunks, from) == [] + idx && [] + idx == idx;
        KeptSkip(chunks, from, kept, idx);
      } else {
        assert NonEmpty(c) == [chunks[from]] + kept;
        assert NonEmptyIndices(chunks, from) == [from] + idx;
        KeptCons(chunks, from, kept, idx);
      }
    }
  }

  /** An empty chunk at `from` is dropped. */
  lemma KeptSkip(chunks: seq<seq<u8>>, from: nat, kept: seq<seq<u8>>, idx: seq<nat>)
    requires from < |chunks| && chunks[from] == []
    requires KeptInOrder(chunks, from + 1, kept, idx)
    ensures KeptInOrder(chunks, from, kept, idx)
  {
    assert from !in idx by {
      forall k | 0 <= k < |idx| ensures idx[k] != from { }
    }
  }

  /** A chunk that is not empty at `from` is kept, before the later ones. */
  lemma KeptCons(chunks: seq<seq<u8>>, from: nat, kept: seq<seq<u8>>, idx: seq<nat>)
    requires from < |chunks| && chunks[from] != []
    requires KeptInOrder(chunks, from + 1, kept, idx)
    ensures KeptInOrder(chunks, from, [chunks[from]] + kept, [from] + idx)
  {
    var kept', idx' := [chunks[from]] + kept, [from] + idx;
    forall k | 0 <= k < |idx'| ensures from <= idx'[k] < |chunks| && kept'[k] == chunks[idx'[k]] {
      if k > 0 {
        assert idx'[k] == idx[k - 1] && kept'[k] == kept[k - 1];
      }
    }
    forall k, l | 0 <= k < l < |idx'| ensures idx'[k] < idx'[l] {
      assert idx'[l] == idx[l - 1];
      if k > 0 {
        assert idx'[k] == idx[k - 1];
      }
    }
    forall j | from <= j < |chunks| ensures j in idx' <==> chunks[j] != [] {
      if j > from {
        assert j in idx' <==> j in idx;
      }
    }
  }

  /** `iter` yields the non-empty chunks of the visited pieces in the order
      of the pieces, each exactly once. */
  lemma IterInOrder(s: Slice)
    requires IterDefined(s)
    ensures var idx := NonEmptyIndices(Chunks(s), 0);
            && |Iter(s)| == |idx|
            && (forall k :: 0 <= k < |idx| ==> idx[k] < Count(s) && Iter(s)[k] == Chunk(s, idx[k]))
            && (forall k, l :: 0 <= k < l < |idx| ==> idx[k] < idx[l])
            && (forall j :: 0 <= j < Count(s) ==> (j in idx <==> Chunk(s, j) != []))
  {
    var chunks := Chunks(s);
    assert chunks[0..] == chunks;
    NonEmptyInOrder(chunks, 0);
  }
}
