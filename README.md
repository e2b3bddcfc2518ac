# peace-table in Dafny

This project models the core of `peace-table`, a Rust crate that implements a
piece table. A piece table never stores its document as a whole. It keeps two
buffers:

- the **original** text, which is borrowed and never changed;
- an **add** buffer, which edits only append to.

The document is the concatenation of the byte ranges that an ordered list of
**pieces** selects from those two buffers.

The crate is in the middle of a refactor, and two generations of it sit side by
side. They are modelled separately, as the code keeps them:

- **`src/lib.rs`**: the byte-based table that is in use.
  - `PieceTable` is a Dafny `class`. Its `pieces`, `buffers` and `total_size`
    fields are updated in place by `insert`, `insert_piece` and
    `split_piece_and_insert`.
  - Module `Lib` holds the table. Module `LibExamples` holds the crate's
    documentation examples and its test.
- **The `str`-based pieces of the next generation:**
  - `src/buffer.rs` becomes `StrBuffer`.
  - `src/piece.rs` becomes `StrPiece`.
  - `src/slice.rs` becomes `Slices` (functions) and `SliceProperties` (lemmas).
    `Slice::iter` is modelled as its `filter_map`: a map that cuts one chunk
    per visited piece (`Chunks`), then a filter that drops the empty chunks
    (`NonEmpty`).
- **The line-break scanner** `line_breaks` of `src/str_utils.rs`.
  - It is an imperative loop over the bytes, in module `StrUtils`.
  - The loop is proved against a recursive specification, `ScanFrom`.
  - Module `StrUtilsProperties` relates that specification to the line-break
    encodings of `src/line.rs` (module `Line`). It states which breaks are
    recorded, in what order, and what the returned count counts.
  - The crate's `unicode-line-breaks` feature is a boolean parameter `unicode`.
- **UTF-8.** Rust strings are byte sequences that hold valid UTF-8. Module
  `Utf8` gives the encoding and the well-formedness syntax of RFC 3629
  (sections 3 and 4).

Panics that the documentation promises are modelled as a `Result` whose `Panic`
case leaves the table unchanged. These are `insert` past the end, and the
asserts of `find_insertion_location` and `calc_insertion_location`.

### A crate in transition

The code itself shows that the crate is moving from byte offsets to character
offsets and growing further operations:

- `src/piece.rs:11` gives the next piece a `len_chars` field beside `len_bytes`.
- `src/str_utils.rs:1-2` re-exports helpers that count characters and turn
  character offsets into byte offsets.
- `line_breaks` takes a `base_idx`, so its entries can be placed in a larger
  document.
- `src/main.rs:10` calls a `remove` that `PieceTable` does not define yet.

The model covers what is written: `lib.rs` addresses bytes and has only `new`,
`insert`, `content` and `size`, and nothing maintains `len_chars` yet.

## Model

| member | source | states |
|---|---|---|
| Lib.Piece.CalcInsertionLocation | src/lib.rs:215-226 | panics exactly when `index` exceeds the piece's length; otherwise the location stands for offset `index`, and is `Start` iff `index` is 0, `End` iff `0 < index == length`, and `Index(k)` strictly inside the piece |
| Lib.PieceTable.constructor | src/lib.rs:24-33 | the new table is valid, its document and size are `initial`, it has one `Original` piece over the whole of `initial` and an empty add buffer |
| Lib.PieceTable.Size | src/lib.rs:109-111 | `size()` is the length of the document the pieces stand for |
| Lib.PieceTable.Content | src/lib.rs:88-97 | the bytes copied out are the document: every piece's byte range, in order |
| Lib.PieceTable.FindInsertionLocation | src/lib.rs:145-165 | panics exactly when `index` exceeds `total_size`; otherwise returns a piece that exists, whose span in the document contains `index`, whose predecessors all end before `index`, and the location of `index` relative to it |
| Lib.FirstReaching | src/lib.rs:152-158 | the piece found is the first whose end reaches `index`: every earlier piece ends below `index` |
| Lib.PrefixLengthMonotone | src/lib.rs:151-155 | the running offset only grows from one piece to the next |
| Lib.LocationOffset | src/lib.rs:60-70 | `Start` of piece `i` is the document position where the piece begins, `Index(k)` is `k` bytes into it, `End` is where it ends |
| Lib.PieceTable.InsertPiece | src/lib.rs:138-143 | `content` is appended to the add buffer, a piece over exactly the appended bytes is put at position `index`, and the other pieces and `total_size` are unchanged |
| Lib.PieceTable.SplitPieceAndInsert | src/lib.rs:113-134 | piece `i` is replaced by its first `k` bytes, a piece for the appended `content`, and its remaining bytes, in that order; nothing else changes but the add buffer |
| Lib.PieceTable.Insert | src/lib.rs:56-76 | panics exactly when `index` exceeds the size, changing nothing; otherwise the document becomes the old one with `content` spliced in at `index`, the size grows by `content`'s length, `original` is unchanged, the add buffer is only extended, and the table stays valid |
| Lib.InsertedText | src/lib.rs:138-143 | after `insert_piece` the document is the text of the pieces before the new one, then `content`, then the text of the pieces after it |
| Lib.InsertAtBoundary | src/lib.rs:61-70 | a new piece put at a piece boundary splices `content` into the document at that boundary |
| Lib.InsertInside | src/lib.rs:64-67 | splitting piece `i` at `k` and inserting between the parts splices `content` into the document `k` bytes into that piece |
| Lib.SplitBytes | src/lib.rs:119-129 | the `before` and `after` parts of a split piece lie inside its buffer and together stand for the piece's bytes |
| Lib.SplitKeepsText | src/lib.rs:119-133 | replacing a piece by its two parts leaves the document unchanged |
| Lib.IndexAfterAppend | src/lib.rs:186-195 | after an append to the add buffer, `buffers[Original]` is unchanged and `buffers[Add]` is the old add buffer followed by the appended bytes |
| Lib.TextGrowAdd | src/lib.rs:139-140 | appending to the add buffer leaves the bytes of every existing piece unchanged |
| Lib.SplicedSize | src/lib.rs:75 | growing `total_size` by the content's length keeps it equal to the sum of the pieces' lengths |
| Lib.TextLength | src/lib.rs:89 | the document's length is the sum of the pieces' lengths, which `total_size` tracks |
| LibExamples.NewExample | src/lib.rs:21-22 | `new(b"initial")` has content "initial" |
| LibExamples.InsertExample | src/lib.rs:41-44 | `new(b"rld")`, `insert(0, b"hellowo")`, `insert(5, b" ")` gives "hello world" |
| LibExamples.InsertPanicExample | src/lib.rs:53-54 | `insert(4, b"")` on a table of 3 bytes panics |
| LibExamples.ContentExample | src/lib.rs:84-86 | `new(b"12")`, `insert(2, b"34")` gives "1234" |
| LibExamples.SizeExample | src/lib.rs:105-106 | `new(b"123456")` has size 6 |
| LibExamples.InsertTest | src/lib.rs:234-237 | `new(b"helloworld")`, `insert(5, b" ")` gives "hello world" |
| StrUtils.MatchByte | src/str_utils.rs:25-59 | one turn of the loop consumes the bytes, pushes the break and keeps or undoes the counter increment exactly as the scan specification's step at that byte does |
| StrUtils.LineBreaks | src/str_utils.rs:8-63 | `v` is extended by exactly the scan's entries, in scan order, and the value returned is the scan's count |
| StrUtils.LineBreaksCorrected | src/str_utils.rs:8-63 | the same entries are pushed, and the value returned is the number of entries pushed |
| StrUtilsProperties.ScanOrdered | src/str_utils.rs:13-22 | every pushed index is `base_idx` plus a byte position of `text`, and the indices strictly increase |
| StrUtilsProperties.DefaultKinds | src/str_utils.rs:26-34 | without the feature only `Lf` and `Crlf` are pushed |
| StrUtilsProperties.EntriesAreEncodings | src/str_utils.rs:25-57 | every entry `(idx, k)` sits where the UTF-8 encoding of `k` begins in `text` |
| StrUtilsProperties.ScanFromIsBreaksFrom | src/str_utils.rs:22-60 | from a position outside a CR LF pair, the loop pushes exactly the breaks that begin in the rest of the text, in order |
| StrUtilsProperties.ScanRecordsEveryBreak | src/str_utils.rs:6-7 | the entries are exactly the line breaks of the text, in order, each at `base_idx` plus its byte position: for any bytes without the feature, for valid UTF-8 with it |
| StrUtilsProperties.BreakRecorded | src/str_utils.rs:6-7 | a break that begins at byte `i` is recorded at `base_idx + i` |
| StrUtilsProperties.CrlfIsOneEntry | src/str_utils.rs:27-29 | a CR LF pair is recorded once, as `Crlf` at the CR, and its LF gives no entry |
| StrUtilsProperties.UnicodeBreaksRecorded | src/str_utils.rs:31-53 | with the feature, VT, FF, a lone CR, NEL, LS and PS in valid UTF-8 are each recorded where their encoding begins |
| StrUtilsProperties.CountCoversEntries | src/str_utils.rs:22-58 | the value returned is at least the number of entries pushed |
| StrUtilsProperties.DefaultCount | src/str_utils.rs:27-34 | without the feature the value returned is the number of entries plus the number of lone CRs |
| StrUtilsProperties.LoneCrCountedByDefault | src/str_utils.rs:30-33 | without the feature a lone CR pushes nothing yet is counted |
| StrUtilsProperties.EllipsisCountedWithFeature | src/str_utils.rs:47-57 | with the feature "…" (E2 80 A6) pushes nothing yet is counted |
| StrUtilsProperties.EllipsisHasNoBreaks | src/str_utils.rs:47-57 | "…" holds no line break of either set |
| StrUtilsProperties.BreakEncodings | src/line.rs:28-35 | the UTF-8 bytes of each break constant are the bytes the scanner matches |
| Line.EncodingValid | src/line.rs:28-35 | each break constant is a valid `&str`: its bytes are well-formed UTF-8 |
| StrUtilsProperties.TwoLineBreaks | src/str_utils.rs:69-76 | printable ASCII lines joined by an LF and a CR LF hold exactly those two breaks, at the joins |
| StrUtilsProperties.CountLines | src/str_utils.rs:69-76 | the crate's `count_lines` text yields two entries, `(11, Lf)` and `(30, Crlf)`, with or without the feature |
| Line.Break.LenChars | src/line.rs:38-43 | the number of characters of the break's constant, 2 exactly for `Crlf` |
| Line.Break.LenBytes | src/line.rs:46-63 | the UTF-8 length of the break's constant (1 for LF, VT, FF, CR; 2 for CR LF and NEL; 3 for LS and PS), never less than its length in characters |
| StrBuffer.Buffers.FromInitial | src/buffer.rs:14-16 | `initial` is the original buffer, the add buffer is empty, and the buffers are valid UTF-8 iff `initial` is |
| StrBuffer.Buffers.Index | src/buffer.rs:19-28 | indexing valid buffers yields valid UTF-8 |
| StrPiece.Piece.ByteRange | src/piece.rs:15-17 | the range starts at the piece's start, has `len_bytes` indices, and is empty iff `len_bytes` is 0 |
| Slices.ChunkRange | src/slice.rs:31-40 | when `start.1` and `end.1` lie inside their pieces, the range cut from each visited piece lies inside that piece's own byte range |
| Slices.NonEmpty | src/slice.rs:43 | no chunk kept is empty, and none is added |
| Slices.Iter | src/slice.rs:26-45 | no chunk yielded is empty, and there is at most one per visited piece |
| SliceProperties.NonEmptyMembers | src/slice.rs:43 | the filter keeps a chunk iff it is one of the chunks and not empty |
| SliceProperties.IterChunks | src/slice.rs:26-45 | `iter` yields exactly the non-empty chunks of the visited pieces |
| SliceProperties.NonEmptyInOrder | src/slice.rs:43 | the filter keeps the non-empty chunks in their original order, each exactly once, and drops exactly the empty ones |
| SliceProperties.IterInOrder | src/slice.rs:26-45 | `iter` yields the non-empty chunks of the visited pieces in the pieces' order, each exactly once |
| SliceProperties.FlattenNonEmpty | src/slice.rs:43 | dropping the empty chunks does not change what is written |
| SliceProperties.DisplayChunks | src/slice.rs:48-52 | a slice displays the chunks of all its visited pieces, in order |
| SliceProperties.SingleChunk | src/slice.rs:32-33 | with one piece visited, its chunk is the piece's bytes from `start.1` to `end.1` |
| SliceProperties.FirstChunk | src/slice.rs:34-35 | the first of several pieces gives its bytes from `start.1` on |
| SliceProperties.LastChunk | src/slice.rs:36-37 | the last of several pieces gives its bytes up to `end.1` |
| SliceProperties.MiddleChunks | src/slice.rs:38-39 | the pieces between the first and the last give their whole text |
| SliceProperties.DisplayPieces | src/slice.rs:30-50 | with several pieces visited, the display is the first piece from `start.1`, the middle pieces whole, and the last piece up to `end.1` |
| SliceProperties.DisplayIsRange | src/slice.rs:48-52 | a slice displays the document's bytes from its start position up to its end position |

## Left out

- Integer widths. `usize` is modelled as an unbounded `nat`, so the overflow of `total_size += content.len()` and of `offset += piece.length` is not modelled. Neither is the subtraction `piece.length - split_index`, which the callers never make negative.
- Panics inside the table that its own callers never trigger become preconditions of the members that would panic. These are the `Vec::insert` in `insert_piece` and `split_piece_and_insert`, and the slicing in `content`.
- Lib.PieceTable.SplitPieceAndInsert: the indexing `self.pieces[piece_index]` (src/lib.rs:119) and the subtraction `piece.length - split_index` (src/lib.rs:125) would panic on a bad argument. Here they are the precondition `pieceIndex < |pieces| && splitIndex <= pieces[pieceIndex].length`, which `Insert` meets.
- Slices.Chunks, Slices.Iter, Slices.Display: the panics of `Slice::iter` are the precondition `IterDefined`. It covers `pieces[start.0..=end.0]` (src/slice.rs:27) being in bounds. It also covers each `&buffers[piece.buffer][range]` (src/slice.rs:42) being in order, inside its buffer and on character boundaries. No caller of `Slice::new` is part of this model, so the model does not show that the slices the crate builds meet it. A slice that does not meet it panics in the crate and is outside the model.
- Lib.PieceTable.Content: modelled as a loop that appends to a sequence. The capacity hint of `Vec::with_capacity` is dropped.
- `Piece::Bytes` and `Text` in `Lib` are total. A piece reaching past its buffer stands for no bytes. The table's `Valid` invariant rules that out.
- `NonZero::new_unchecked` becomes the subset type `NonZeroUsize`. The verifier checks the argument is positive, so nothing is left unsafe.
- The `dbg!` calls in `insert`, `Slice::iter` and the `count_lines` test have no effect on the model's values. They are left out.
- The `str_indices` functions `count_chars` and `char_to_byte`, re-exported by `src/str_utils.rs`, belong to another crate. They are not part of this model.
- `src/rbtree.rs` and `src/main.rs` are not part of this model.
- The `&mut Vec` that `line_breaks` extends is passed in and handed back extended. Aliasing of the vector is not modelled.
- `Slice::iter` yields a lazy iterator. The model gives the whole sequence of chunks it yields, so laziness is not modelled.
- Slices.Display: the formatter's `fmt::Result` error path is not modelled. The model gives the bytes written, as if every `write!` succeeds.
- `Slice::new` is the constructor of the `Slice` datatype. It only stores its arguments and has no contract of its own.
- `Slice::table` holds only the pieces and buffers that `iter` reads. The table's lifetime and borrow are not modelled.
- The `len_chars` field of the `str`-based `Piece` is carried but not related to the bytes, because nothing in the code maintains it yet.
- The feature-gated variants of `Break` exist in the model whether or not the feature is on. `DefaultKinds` proves that without the feature only `Lf` and `Crlf` are ever produced.

## Findings

| source | as written | input that shows it | evidently intended | confidence | as-written member | corrected member |
|---|---|---|---|---|---|---|
| src/str_utils.rs:47-57 | with `unicode-line-breaks`, every character whose UTF-8 encoding begins with E2 keeps the counter's increment, whether or not it is LS or PS | "…" (bytes E2 80 A6): nothing is pushed and `line_breaks` returns 1 | the value returned counts the line breaks recorded in `v`, so 0 here | not executed | StrUtilsProperties.EllipsisCountedWithFeature | StrUtils.LineBreaksCorrected |
| src/str_utils.rs:27-34 | without the feature, a CR not followed by LF pushes nothing, since the push is compiled out, but keeps the counter's increment | the single byte 0D: nothing is pushed and `line_breaks` returns 1 | the value returned counts the line breaks recorded in `v`, so 0 here | not executed | StrUtilsProperties.LoneCrCountedByDefault | StrUtils.LineBreaksCorrected |
