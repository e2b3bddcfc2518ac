/**
 * The byte-based piece table of src/lib.rs. The document is never stored
 * whole: it is the concatenation of the byte ranges its pieces select from
 * an immutable `original` buffer and an append-only `add` buffer.
 */
module Lib {
  import opened Wrappers
  import opened Utf8

  /** Which buffer a piece points into. */
  datatype Buffer = Original | Add

  /** The original bytes, borrowed and never changed, and the add buffer,
      which insertions only extend. */
  datatype Buffers = Buffers(original: seq<u8>, add: seq<u8>) {
    /** `buffers[b]` */
    function Index(b: Buffer): seq<u8> {
      match b
      case Original => original
      case Add => add
    }
  }

  /** Rust's `NonZeroUsize`. */
  type NonZeroUsize = k: nat | 0 < k witness 1

  /** Where an insertion goes relative to one piece. */
  datatype InsertionLocation = Start | Index(at: NonZeroUsize) | End {
    /** The offset into a piece of `length` bytes that the location stands for. */
    function Offset(length: nat): nat {
      match this
      case Start => 0
      case Index(k) => k
      case End => length
    }
  }

  datatype Piece = Piece(buffer: Buffer, start: nat, length: nat) {
    predicate InBounds(b: Buffers) {
      start + length <= |b.Index(buffer)|
    }

    /** The bytes this piece stands for; none when it reaches past its
        buffer, which `PieceTable.Valid` rules out. */
    function Bytes(b: Buffers): seq<u8> {
      if InBounds(b) then b.Index(buffer)[start .. start + length] else []
    }

    /**
     * `calc_insertion_location`: panics when `index` lies beyond the piece;
     * otherwise the location names exactly the offset `index`, and is
     * `Start` for 0 (checked first, so also in an empty piece), `End` for
     * the piece's length, and `Index` strictly inside.
     */
    function CalcInsertionLocation(index: nat): (r: Result<InsertionLocation>)
      ensures r.Panic? <==> length < index
      ensures r.Ok? ==> r.value.Offset(length) == index
      ensures r.Ok? ==> (r.value.Start? <==> index == 0)
      ensures r.Ok? ==> (r.value.End? <==> 0 < index == length)
      ensures r.Ok? && r.value.Index? ==> 0 < r.value.at < length
    {
      if length < index then Panic("index out of bounds")
      else if index == 0 then Ok(Start)
      else if index == length then Ok(End)
      else Ok(InsertionLocation.Index(index))
    }
  }

  ghost predicate AllInBounds(b: Buffers, ps: seq<Piece>) {
    forall j :: 0 <= j < |ps| ==> ps[j].InBounds(b)
  }

  /** The document the pieces stand for: their bytes, in order. */
  function Text(b: Buffers, ps: seq<Piece>): seq<u8> {
    if ps == [] then [] else Text(b, ps[..|ps| - 1]) + ps[|ps| - 1].Bytes(b)
  }

  /** The sum of the pieces' lengths. */
  function TotalLength(ps: seq<Piece>): nat {
    if ps == [] then 0 else TotalLength(ps[..|ps| - 1]) + ps[|ps| - 1].length
  }

  /** The new piece `insert_piece` makes for `content` appended to `add`. */
  function AddPiece(b: Buffers, content: seq<u8>): Piece {
    Piece(Add, |b.add|, |content|)
  }

  class PieceTable {
    var pieces: seq<Piece>
    var buffers: Buffers
    var totalSize: nat

    /** There is always a piece, every piece lies inside its buffer, and
        `total_size` is the sum of the pieces' lengths. */
    ghost predicate Valid()
      reads this
    {
      && |pieces| > 0
      && AllInBounds(buffers, pieces)
      && totalSize == TotalLength(pieces)
    }

    ghost function Document(): seq<u8>
      reads this
      requires Valid()
    {
      Text(buffers, pieces)
    }

    /** `PieceTable::new(initial)` */
    constructor (initial: seq<u8>)
      ensures Valid() && Document() == initial && Size() == |initial|
      ensures pieces == [Piece(Original, 0, |initial|)] && buffers == Buffers(initial, [])
    {
      pieces := [Piece(Original, 0, |initial|)];
      buffers := Buffers(initial, []);
      totalSize := |initial|;
      new;
      assert pieces[..0] == [];
      assert initial[0 .. |initial|] == initial;
      TextLength(buffers, pieces);
    }

    /** `size()`: the length of the document. */
    function Size(): (r: nat)
      reads this
      requires Valid()
      ensures r == |Document()|
    {
      TextLength(buffers, pieces);
      totalSize
    }

    /** `content()`: the pieces' byte ranges, copied out in order. */
    method Content() returns (content: seq<u8>)
      requires Valid()
      ensures content == Document()
    {
      content := [];
      for i := 0 to |pieces|
        invariant content == Text(buffers, pieces[..i])
      {
        var piece := pieces[i];
        var buffer := buffers.Index(piece.buffer);
        var end := piece.start + piece.length;
        content := content + buffer[piece.start .. end];
        assert pieces[..i + 1][..i] == pieces[..i];
      }
      assert pieces[..|pieces|] == pieces;
    }

    /**
     * `find_insertion_location(index)`: panics when `index` lies beyond the
     * document; otherwise the first piece whose end is at or past `index`,
     * and the location of `index` inside it.
     */
    method FindInsertionLocation(index: nat) returns (r: Result<(nat, InsertionLocation)>)
      requires Valid()
      ensures r.Panic? <==> totalSize < index
      ensures r.Ok? ==>
                var (i, loc) := r.value;
                && i < |pieces|
                && TotalLength(pieces[..i]) <= index <= TotalLength(pieces[..i + 1])
                && (i == 0 || TotalLength(pieces[..i]) < index)
                && pieces[i].CalcInsertionLocation(index - TotalLength(pieces[..i])) == Ok(loc)
    {
      if totalSize < index {
        return Panic("index out of bounds");
      }
      var offset := 0;
      var i := 0;
      while i < |pieces|
        invariant i <= |pieces|
        invariant offset == TotalLength(pieces[..i])
        invariant i == 0 || TotalLength(pieces[..i]) < index
      {
        var piece := pieces[i];
        TotalLengthStep(pieces, i);
        offset := offset + piece.length;
        if offset >= index {
          var relativeIndex := index - (offset - piece.length);
          return Ok((i, piece.CalcInsertionLocation(relativeIndex).value));
        }
        i := i + 1;
      }
      // `unreachable!`: the lengths add up to `total_size`, which is at
      // least `index`, and there is at least one piece
      WholePrefix(pieces);
      assert false;
    }

    /** `insert_piece(index, content)`: appends `content` to `add` and puts a
        piece for it at position `index`. */
    method InsertPiece(index: nat, content: seq<u8>)
      requires index <= |pieces|
      modifies this
      ensures buffers == old(buffers).(add := old(buffers.add) + content)
      ensures pieces == old(pieces[..index]) + [AddPiece(old(buffers), content)] + old(pieces[index..])
      ensures totalSize == old(totalSize)
    {
      var start := |buffers.add|;
      buffers := buffers.(add := buffers.add + content);
      var piece := Piece(Add, start, |content|);
      pieces := pieces[..index] + [piece] + pieces[index..];
    }

    /** `split_piece_and_insert(i, k, content)`: cuts piece `i` after `k`
        bytes and puts a piece for `content` between the two parts. */
    method SplitPieceAndInsert(pieceIndex: nat, splitIndex: nat, content: seq<u8>)
      requires pieceIndex < |pieces| && splitIndex <= pieces[pieceIndex].length
      modifies this
      ensures var p := old(pieces[pieceIndex]);
              pieces == old(pieces[..pieceIndex])
                        + [Before(p, splitIndex), AddPiece(old(buffers), content), After(p, splitIndex)]
                        + old(pieces[pieceIndex + 1..])
      ensures buffers == old(buffers).(add := old(buffers.add) + content)
      ensures totalSize == old(totalSize)
    {
      var piece := pieces[pieceIndex];
      var after := Piece(piece.buffer, piece.start + splitIndex, piece.length - splitIndex);
      pieces := pieces[pieceIndex := piece.(length := splitIndex)];
      InsertPiece(pieceIndex + 1, content);
      pieces := pieces[..pieceIndex + 2] + [after] + pieces[pieceIndex + 2..];
    }

    /**
     * `insert(index, content)`: panics, changing nothing, when `index` lies
     * beyond the document; otherwise the document becomes the old one with
     * `content` spliced in at `index`, the size grows by `content`'s length,
     * `original` is untouched and `add` is only extended.
     */
    method Insert(index: nat, content: seq<u8>) returns (r: Result<()>)
      requires Valid()
      modifies this
      ensures Valid()
      ensures r.Panic? <==> old(Size()) < index
      ensures r.Panic? ==> pieces == old(pieces) && buffers == old(buffers) && totalSize == old(totalSize)
      ensures r.Ok? ==> Document() == old(Document())[..index] + content + old(Document())[index..]
      ensures r.Ok? ==> Size() == old(Size()) + |content|
      ensures r.Ok? ==> buffers == old(buffers).(add := old(buffers.add) + content)
    {
      var found := FindInsertionLocation(index);
      if found.Panic? {
        return Panic(found.message);
      }
      var (pieceIndex, location) := found.value;
      ghost var ps, b := pieces, buffers;
      LocationOffset(ps, pieceIndex, index, location);
      match location {
        case Start =>
          InsertPiece(pieceIndex, content);
          InsertAtBoundary(b, ps, buffers, pieces, pieceIndex, index, content);
        case Index(k) =>
          SplitPieceAndInsert(pieceIndex, k, content);
          InsertInside(b, ps, buffers, pieces, pieceIndex, k, index, content);
        case End =>
          InsertPiece(pieceIndex + 1, content);
          InsertAtBoundary(b, ps, buffers, pieces, pieceIndex + 1, index, content);
      }
      assert Spliced(b, ps, buffers, pieces, index, content);
      SplicedSize(b, ps, buffers, pieces, index, content);
      totalSize := totalSize + |content|;
      assert Valid();
      return Ok(());
    }
  }

  /** Pieces `ps2` over buffers `b2` stand for the document of `ps` over
      `b` with `content` spliced in at `index`. */
  ghost predicate Spliced(b: Buffers, ps: seq<Piece>, b2: Buffers, ps2: seq<Piece>, index: nat, content: seq<u8>) {
    && AllInBounds(b2, ps2)
    && index <= |Text(b, ps)|
    && Text(b2, ps2) == Text(b, ps)[..index] + content + Text(b, ps)[index..]
  }

  /** A document spliced into from another one with the same text is
      spliced into from that one too. */
  lemma SplicedTransfer(b: Buffers, q: seq<Piece>, ps: seq<Piece>, b2: Buffers, ps2: seq<Piece>, index: nat, content: seq<u8>)
    requires Text(b, q) == Text(b, ps) && Spliced(b, q, b2, ps2, index, content)
    ensures Spliced(b, ps, b2, ps2, index, content)
  {
  }

  /** A splice grows the pieces' total length by the content's length. */
  lemma SplicedSize(b: Buffers, ps: seq<Piece>, b2: Buffers, ps2: seq<Piece>, index: nat, content: seq<u8>)
    requires AllInBounds(b, ps) && Spliced(b, ps, b2, ps2, index, content)
    ensures TotalLength(ps2) == TotalLength(ps) + |content|
  {
    TextLength(b, ps);
    TextLength(b2, ps2);
  }

  /** The part of `p` before offset `k`. */
  function Before(p: Piece, k: nat): Piece {
    p.(length := k)
  }

  /** The part of `p` from offset `k` on. */
  function After(p: Piece, k: nat): Piece
    requires k <= p.length
  {
    Piece(p.buffer, p.start + k, p.length - k)
  }

  lemma {:induction false} TextLength(b: Buffers, ps: seq<Piece>)
    requires AllInBounds(b, ps)
    ensures |Text(b, ps)| == TotalLength(ps)
  {
    if ps != [] {
      TextLength(b, ps[..|ps| - 1]);
    }
  }

  /** The text of a concatenation of pieces is the concatenation of their
      texts. */
  lemma {:induction false} TextAppend(b: Buffers, xs: seq<Piece>, ys: seq<Piece>)
    ensures Text(b, xs + ys) == Text(b, xs) + Text(b, ys)
    decreases |ys|
  {
    if ys == [] {
      assert xs + ys == xs;
    } else {
      var init, last := ys[..|ys| - 1], ys[|ys| - 1];
      SnocSplit(xs, ys);
      TextAppend(b, xs, init);
      TextSnoc(b, xs + init, last);
      TextSnoc(b, init, last);
      Assoc(Text(b, xs), Text(b, init), last.Bytes(b));
    }
  }

  lemma SnocSplit(xs: seq<Piece>, ys: seq<Piece>)
    requires ys != []
    ensures ys == ys[..|ys| - 1] + [ys[|ys| - 1]]
    ensures xs + ys == (xs + ys[..|ys| - 1]) + [ys[|ys| - 1]]
  {
  }

  lemma Assoc(x: seq<u8>, y: seq<u8>, z: seq<u8>)
    ensures x + (y + z) == x + y + z
  {
  }

  /** Appending a piece appends its bytes. */
  lemma TextSnoc(b: Buffers, ps: seq<Piece>, p: Piece)
    ensures Text(b, ps + [p]) == Text(b, ps) + p.Bytes(b)
  {
    assert (ps + [p])[..|ps|] == ps;
  }

  /** Appending to `add`: `buffers[Original]` is unchanged, and
      `buffers[Add]` gets `content` after its old bytes. */
  lemma IndexAfterAppend(b: Buffers, content: seq<u8>, buf: Buffer)
    ensures var b' := b.(add := b.add + content);
            && (buf.Original? ==> b'.Index(buf) == b.Index(buf))
            && (buf.Add? ==> b'.Index(buf) == b.Index(buf) + content)
            && |b.Index(buf)| <= |b'.Index(buf)|
            && b'.Index(buf)[..|b.Index(buf)|] == b.Index(buf)
  {
  }

  /** Extending `add` leaves every in-bounds piece's bytes as they were. */
  lemma {:induction false} TextGrowAdd(b: Buffers, content: seq<u8>, ps: seq<Piece>)
    requires AllInBounds(b, ps)
    ensures AllInBounds(b.(add := b.add + content), ps)
    ensures Text(b.(add := b.add + content), ps) == Text(b, ps)
    decreases |ps|
  {
    var b' := b.(add := b.add + content);
    forall j | 0 <= j < |ps| ensures ps[j].InBounds(b') && ps[j].Bytes(b') == ps[j].Bytes(b) {
      var p := ps[j];
      IndexAfterAppend(b, content, p.buffer);
      assert b'.Index(p.buffer)[p.start .. p.start + p.length] == b.Index(p.buffer)[p.start .. p.start + p.length];
    }
    if ps != [] {
      TextGrowAdd(b, content, ps[..|ps| - 1]);
    }
  }

  /** The text of a single piece is its bytes. */
  lemma TextSingle(b: Buffers, p: Piece)
    ensures Text(b, [p]) == p.Bytes(b)
  {
    assert [p][..0] == [];
  }

  /** Splitting the pieces at position `i` splits the document at the
      total length of the pieces before it. */
  lemma PrefixText(b: Buffers, ps: seq<Piece>, i: nat)
    requires AllInBounds(b, ps) && i <= |ps|
    ensures var doc := Text(b, ps);
            var at := TotalLength(ps[..i]);
            && at <= |doc|
            && doc[..at] == Text(b, ps[..i])
            && doc[at..] == Text(b, ps[i..])
  {
    assert ps == ps[..i] + ps[i..];
    TextAppend(b, ps[..i], ps[i..]);
    TextLength(b, ps[..i]);
  }

  lemma WholePrefix(ps: seq<Piece>)
    ensures ps[..|ps|] == ps
  {
  }

  /** Where the location found inside piece `i` lies in the document. */
  lemma LocationOffset(ps: seq<Piece>, i: nat, index: nat, loc: InsertionLocation)
    requires i < |ps| && TotalLength(ps[..i]) <= index
    requires ps[i].CalcInsertionLocation(index - TotalLength(ps[..i])) == Ok(loc)
    ensures loc.Start? ==> TotalLength(ps[..i]) == index
    ensures loc.Index? ==> TotalLength(ps[..i]) + loc.at == index && loc.at <= ps[i].length
    ensures loc.End? ==> TotalLength(ps[..i + 1]) == index
  {
    TotalLengthStep(ps, i);
  }

  lemma TotalLengthStep(ps: seq<Piece>, i: nat)
    requires i < |ps|
    ensures TotalLength(ps[..i + 1]) == TotalLength(ps[..i]) + ps[i].length
  {
    assert ps[..i + 1][..i] == ps[..i];
  }

  /** The ends of the pieces grow from one piece to the next. */
  lemma {:induction false} PrefixLengthMonotone(ps: seq<Piece>, j: nat, i: nat)
    requires j <= i <= |ps|
    ensures TotalLength(ps[..j]) <= TotalLength(ps[..i])
    decreases i - j
  {
    if j < i {
      TotalLengthStep(ps, i - 1);
      PrefixLengthMonotone(ps, j, i - 1);
    }
  }

  /** A piece whose start lies below `index` is the first one whose end
      reaches `index` when the pieces before it all end below `index`. */
  lemma FirstReaching(ps: seq<Piece>, i: nat, index: nat)
    requires i <= |ps| && (i == 0 || TotalLength(ps[..i]) < index)
    ensures forall j :: 0 < j <= i ==> TotalLength(ps[..j]) < index
  {
    forall j | 0 < j <= i ensures TotalLength(ps[..j]) < index {
      PrefixLengthMonotone(ps, j, i);
    }
  }

  /** A piece inside its buffer, put among pieces inside theirs. */
  lemma InsertInBounds(b: Buffers, ps: seq<Piece>, i: nat, n: Piece)
    requires AllInBounds(b, ps) && i <= |ps| && n.InBounds(b)
    ensures AllInBounds(b, ps[..i] + [n] + ps[i..])
  {
    var ps' := ps[..i] + [n] + ps[i..];
    forall j | 0 <= j < |ps'| ensures ps'[j].InBounds(b) {
      if j > i {
        assert ps'[j] == ps[j - 1];
      }
    }
  }

  /** The new piece selects exactly the appended content. */
  lemma AddPieceBytes(b: Buffers, content: seq<u8>)
    ensures AddPiece(b, content).InBounds(b.(add := b.add + content))
    ensures AddPiece(b, content).Bytes(b.(add := b.add + content)) == content
  {
    var add := b.add + content;
    assert add[|b.add| .. |b.add| + |content|] == content;
  }

  /** What `insert_piece` does to the pieces' text: `content` appears between
      the texts of the pieces before and after position `i`. */
  lemma InsertedText(b: Buffers, ps: seq<Piece>, i: nat, content: seq<u8>)
    requires AllInBounds(b, ps) && i <= |ps|
    ensures var b' := b.(add := b.add + content);
            var ps' := ps[..i] + [AddPiece(b, content)] + ps[i..];
            && AllInBounds(b', ps')
            && Text(b', ps') == Text(b, ps[..i]) + content + Text(b, ps[i..])
  {
    var b' := b.(add := b.add + content);
    var n := AddPiece(b, content);
    TextGrowAdd(b, content, ps);
    TextGrowAdd(b, content, ps[..i]);
    TextGrowAdd(b, content, ps[i..]);
    AddPieceBytes(b, content);
    InsertInBounds(b', ps, i, n);
    TextSingle(b', n);
    TextAppend(b', ps[..i], [n]);
    TextAppend(b', ps[..i] + [n], ps[i..]);
  }

  /** A new piece put between pieces `i - 1` and `i` splices its content
      into the document at the total length of the pieces before it. */
  lemma InsertAtBoundary(b: Buffers, ps: seq<Piece>, b2: Buffers, ps2: seq<Piece>, i: nat, index: nat, content: seq<u8>)
    requires AllInBounds(b, ps) && i <= |ps| && TotalLength(ps[..i]) == index
    requires b2 == b.(add := b.add + content) && ps2 == ps[..i] + [AddPiece(b, content)] + ps[i..]
    ensures Spliced(b, ps, b2, ps2, index, content)
  {
    InsertedText(b, ps, i, content);
    PrefixText(b, ps, i);
  }

  /** The two parts of a split piece stand for the piece's bytes. */
  lemma SplitBytes(b: Buffers, p: Piece, k: nat)
    requires p.InBounds(b) && k <= p.length
    ensures Before(p, k).InBounds(b) && After(p, k).InBounds(b)
    ensures Before(p, k).Bytes(b) + After(p, k).Bytes(b) == p.Bytes(b)
  {
    var s := b.Index(p.buffer);
    assert s[p.start .. p.start + k] + s[p.start + k .. p.start + p.length] == s[p.start .. p.start + p.length];
  }

  /** Replacing piece `i` by pieces `mid` that stand for the same bytes
      keeps the text. */
  lemma ReplaceSameText(b: Buffers, ps: seq<Piece>, i: nat, mid: seq<Piece>)
    requires i < |ps| && Text(b, mid) == ps[i].Bytes(b)
    ensures Text(b, ps[..i] + mid + ps[i + 1..]) == Text(b, ps)
  {
    var left, right := ps[..i], ps[i + 1..];
    TextAppend(b, left, mid);
    TextAppend(b, left + mid, right);
    TextSingle(b, ps[i]);
    TextAppend(b, left, [ps[i]]);
    TextAppend(b, left + [ps[i]], right);
    Recompose(ps, i);
  }

  lemma Recompose(ps: seq<Piece>, i: nat)
    requires i < |ps|
    ensures ps[..i] + [ps[i]] + ps[i + 1..] == ps
  {
  }

  /** Replacing piece `i` by its two parts keeps the text. */
  lemma SplitKeepsText(b: Buffers, ps: seq<Piece>, i: nat, k: nat)
    requires i < |ps| && ps[i].InBounds(b) && k <= ps[i].length
    ensures var q := ps[..i] + [Before(ps[i], k), After(ps[i], k)] + ps[i + 1..];
            Text(b, q) == Text(b, ps)
  {
    var p := ps[i];
    SplitBytes(b, p, k);
    TwoPieces(b, Before(p, k), After(p, k));
    ReplaceSameText(b, ps, i, [Before(p, k), After(p, k)]);
  }

  /** The two parts of a piece inside its buffer are inside it too. */
  lemma SplitInBounds(b: Buffers, ps: seq<Piece>, i: nat, k: nat)
    requires AllInBounds(b, ps) && i < |ps| && k <= ps[i].length
    ensures AllInBounds(b, ps[..i] + [Before(ps[i], k), After(ps[i], k)] + ps[i + 1..])
  {
    var q := ps[..i] + [Before(ps[i], k), After(ps[i], k)] + ps[i + 1..];
    forall j | 0 <= j < |q| ensures q[j].InBounds(b) {
      if j > i + 1 {
        assert q[j] == ps[j - 1];
      }
    }
  }

  /** The first part of a split piece ends `k` bytes into the piece. */
  lemma SplitLength(ps: seq<Piece>, i: nat, k: nat)
    requires i < |ps| && k <= ps[i].length
    ensures var q := ps[..i] + [Before(ps[i], k), After(ps[i], k)] + ps[i + 1..];
            TotalLength(q[..i + 1]) == TotalLength(ps[..i]) + k
  {
    var q := ps[..i] + [Before(ps[i], k), After(ps[i], k)] + ps[i + 1..];
    assert q[..i + 1] == ps[..i] + [Before(ps[i], k)];
    assert q[..i + 1][..i] == ps[..i];
  }

  lemma TwoPieces(b: Buffers, x: Piece, y: Piece)
    ensures Text(b, [x, y]) == x.Bytes(b) + y.Bytes(b)
  {
    assert [x, y][..1] == [x];
    TextSingle(b, x);
  }

  /** What `split_piece_and_insert` does to the document: `content` is
      spliced in `k` bytes into the text of piece `i`. */
  lemma InsertInside(b: Buffers, ps: seq<Piece>, b2: Buffers, ps2: seq<Piece>, i: nat, k: nat, index: nat, content: seq<u8>)
    requires AllInBounds(b, ps) && i < |ps| && k <= ps[i].length && TotalLength(ps[..i]) + k == index
    requires b2 == b.(add := b.add + content)
    requires ps2 == ps[..i] + [Before(ps[i], k), AddPiece(b, content), After(ps[i], k)] + ps[i + 1..]
    ensures Spliced(b, ps, b2, ps2, index, content)
  {
    var p, n := ps[i], AddPiece(b, content);
    var q := ps[..i] + [Before(p, k), After(p, k)] + ps[i + 1..];
    SplitInBounds(b, ps, i, k);
    SplitKeepsText(b, ps, i, k);
    SplitLength(ps, i, k);
    Between(ps, i, Before(p, k), n, After(p, k));
    InsertAtBoundary(b, q, b2, ps2, i + 1, index, content);
    SplicedTransfer(b, q, ps, b2, ps2, index, content);
  }

  /** Putting `n` after `x` once `x, y` replace piece `i`. */
  lemma Between(ps: seq<Piece>, i: nat, x: Piece, n: Piece, y: Piece)
    requires i < |ps|
    ensures var q := ps[..i] + [x, y] + ps[i + 1..];
            q[..i + 1] + [n] + q[i + 1..] == ps[..i] + [x, n, y] + ps[i + 1..]
  {
    var q := ps[..i] + [x, y] + ps[i + 1..];
    assert q[..i + 1] == ps[..i] + [x];
    assert q[i + 1..] == [y] + ps[i + 1..];
  }
}

/** The examples in the documentation of src/lib.rs and its `insert` test,
    with the byte strings written out in ASCII codes. */
module LibExamples {
  import opened Wrappers
  import opened Utf8
  import opened Lib

  /** `new(b"helloworld")`, then `insert(5, b" ")`: "hello world". */
  method InsertTest() returns (content: seq<u8>)
    ensures content == [104, 101, 108, 108, 111, 32, 119, 111, 114, 108, 100]
  {
    var pt := new PieceTable([104, 101, 108, 108, 111, 119, 111, 114, 108, 100]);
    var r := pt.Insert(5, [32]);
    content := pt.Content();
  }

  /** `new(b"initial")`: the content is "initial". */
  method NewExample() returns (content: seq<u8>)
    ensures content == [105, 110, 105, 116, 105, 97, 108]
  {
    var pt := new PieceTable([105, 110, 105, 116, 105, 97, 108]);
    content := pt.Content();
  }

  /** `new(b"123456")`: the size is 6. */
  method SizeExample() returns (size: nat)
    ensures size == 6
  {
    var pt := new PieceTable([49, 50, 51, 52, 53, 54]);
    size := pt.Size();
  }

  /** `new(b"rld")`, `insert(0, b"hellowo")`, `insert(5, b" ")`: "hello world". */
  method InsertExample() returns (content: seq<u8>)
    ensures content == [104, 101, 108, 108, 111, 32, 119, 111, 114, 108, 100]
  {
    var pt := new PieceTable([114, 108, 100]);
    ghost var d0 := pt.Document();
    var r := pt.Insert(0, [104, 101, 108, 108, 111, 119, 111]);
    ghost var d1 := pt.Document();
    HelloWo(d0, d1);
    r := pt.Insert(5, [32]);
    HelloWorld(d1, pt.Document());
    content := pt.Content();
  }

  lemma HelloWo(d0: seq<u8>, d1: seq<u8>)
    requires d0 == [114, 108, 100]
    requires d1 == d0[..0] + [104, 101, 108, 108, 111, 119, 111] + d0[0..]
    ensures d1 == [104, 101, 108, 108, 111, 119, 111, 114, 108, 100]
  {
  }

  lemma HelloWorld(d1: seq<u8>, d2: seq<u8>)
    requires d1 == [104, 101, 108, 108, 111, 119, 111, 114, 108, 100]
    requires d2 == d1[..5] + [32] + d1[5..]
    ensures d2 == [104, 101, 108, 108, 111, 32, 119, 111, 114, 108, 100]
  {
    assert d1[..5] == [104, 101, 108, 108, 111];
    assert d1[5..] == [119, 111, 114, 108, 100];
  }

  /** `new(b"12")`, `insert(2, b"34")`: "1234", a second piece after the
      first. */
  method ContentExample() returns (content: seq<u8>)
    ensures content == [49, 50, 51, 52]
  {
    var pt := new PieceTable([49, 50]);
    var r := pt.Insert(2, [51, 52]);
    content := pt.Content();
  }

  /** `new(b"012")`, `insert(4, b"")`: past the end, so it panics. */
  method InsertPanicExample() returns (r: Result<()>)
    ensures r.Panic?
  {
    var pt := new PieceTable([48, 49, 50]);
    r := pt.Insert(4, []);
  }
}
