/**
 * The line-break scanner `line_breaks` of src/str_utils.rs. The crate's
 * `unicode-line-breaks` feature is the parameter `unicode`; the caller's
 * `&mut Vec` is passed in as `v` and handed back, extended, as `v'`.
 */
module StrUtils {
  import opened Wrappers
  import opened Utf8
  import opened Line

  /** `(index + base_idx, kind)`, one per recorded line break. */
  type Entry = (nat, Break)

  /** What one turn of the scanning loop does at byte position `p`: how
      many bytes it consumes, what it pushes, and whether it leaves the
      counter raised. */
  datatype Step = Step(width: nat, entry: Option<Break>, counted: bool)

  function StepAt(text: seq<u8>, p: nat, unicode: bool): (s: Step)
    requires p < |text|
    ensures 1 <= s.width <= |text| - p
  {
    var b := text[p];
    if b == 0x0A then Step(1, Some(Lf), true)
    else if b == 0x0D then
      // `next_if` consumes the following byte only when it is an LF
      if p + 1 < |text| && text[p + 1] == 0x0A then Step(2, Some(Crlf), true)
      else Step(1, if unicode then Some(Cr) else None, true)
    else if !unicode then Step(1, None, false)
    else if b == 0x0B then Step(1, Some(Vt), true)
    else if b == 0x0C then Step(1, Some(Ff), true)
    else if b == 0xC2 then
      // the arm's guard calls `next()`, which consumes a byte even when
      // the guard fails; a failed guard falls through to the `_` arm
      if p + 1 < |text| then
        if text[p + 1] == 0x85 then Step(2, Some(Nel), true) else Step(2, None, false)
      else Step(1, None, false)
    else if b == 0xE2 then
      // two `next()` calls, whatever they return; the counter stays raised
      var width := if p + 3 <= |text| then 3 else |text| - p;
      var kind :=
        if p + 2 < |text| && text[p + 1] == 0x80 && text[p + 2] == 0xA8 then Some(Ls)
        else if p + 2 < |text| && text[p + 1] == 0x80 && text[p + 2] == 0xA9 then Some(Ps)
        else None;
      Step(width, kind, true)
    else Step(1, None, false)
  }

  /** The entries a break found at index `idx` contributes. */
  function Pushed(entry: Option<Break>, idx: nat): seq<Entry> {
    match entry
    case Some(k) => [(idx, k)]
    case None => []
  }

  /** The entries pushed and the value returned by a scan of `text[p..]`. */
  datatype Scanned = Scanned(entries: seq<Entry>, count: nat)

  function ScanFrom(text: seq<u8>, p: nat, base: nat, unicode: bool): Scanned
    requires p <= |text|
    decreases |text| - p
  {
    if p == |text| then Scanned([], 0)
    else
      var s := StepAt(text, p, unicode);
      var rest := ScanFrom(text, p + s.width, base, unicode);
      Scanned(Pushed(s.entry, p + base) + rest.entries,
              (if s.counted then 1 else 0) + rest.count)
  }

  function Scan(text: seq<u8>, base: nat, unicode: bool): Scanned {
    ScanFrom(text, 0, base, unicode)
  }


  /** One turn of the scanning loop keeps "what is pushed so far plus what the
      rest of the scan pushes" equal to the whole scan. */
  lemma ScanFromStep(text: seq<u8>, p: nat, base: nat, unicode: bool, all: Scanned,
                     v0: seq<Entry>, v1: seq<Entry>, n0: nat, n1: nat)
    requires p < |text|
    requires v0 + ScanFrom(text, p, base, unicode).entries == all.entries
    requires n0 + ScanFrom(text, p, base, unicode).count == all.count
    requires v1 == v0 + Pushed(StepAt(text, p, unicode).entry, p + base)
    requires n1 == n0 + (if StepAt(text, p, unicode).counted then 1 else 0)
    ensures var next := p + StepAt(text, p, unicode).width;
            && v1 + ScanFrom(text, next, base, unicode).entries == all.entries
            && n1 + ScanFrom(text, next, base, unicode).count == all.count
  {
    EntriesStep(text, p, base, unicode, all.entries, v0, v1);
  }

  /** The entries half of `ScanFromStep`. */
  lemma EntriesStep(text: seq<u8>, p: nat, base: nat, unicode: bool, all: seq<Entry>,
                    v0: seq<Entry>, v1: seq<Entry>)
    requires p < |text|
    requires v0 + ScanFrom(text, p, base, unicode).entries == all
    requires v1 == v0 + Pushed(StepAt(text, p, unicode).entry, p + base)
    ensures v1 + ScanFrom(text, p + StepAt(text, p, unicode).width, base, unicode).entries == all
  {
    var s := StepAt(text, p, unicode);
    var pushed, rest := Pushed(s.entry, p + base), ScanFrom(text, p + s.width, base, unicode).entries;
    assert ScanFrom(text, p, base, unicode).entries == pushed + rest;
    assert v1 + rest == v0 + (pushed + rest);
  }

  /**
   * The body of the scanning loop: the `match` on the byte at `p`. Returns
   * the position of the next unconsumed byte, the break to push, and
   * whether the increment of the counter survives (the `_` arm undoes it).
   */
  method MatchByte(text: seq<u8>, p: nat, unicode: bool) returns (next: nat, pushed: Option<Break>, counted: bool)
    requires p < |text|
    ensures p < next && StepAt(text, p, unicode) == Step(next - p, pushed, counted)
  {
    var byte := text[p];
    next := p + 1;
    counted, pushed := true, None;
    if byte == 0x0A {
      pushed := Some(Lf);
    } else if byte == 0x0D {
      if next < |text| && text[next] == 0x0A {
        next := next + 1;
        pushed := Some(Crlf);
      } else if unicode {
        pushed := Some(Cr);
      }
    } else if unicode && byte == 0x0B {
      pushed := Some(Vt);
    } else if unicode && byte == 0x0C {
      pushed := Some(Ff);
    } else {
      // the guard of the `0xC2` arm calls `next()`, which consumes a byte
      // even when the guard then fails
      var guardHolds := false;
      if unicode && byte == 0xC2 && next < |text| {
        guardHolds := text[next] == 0x85;
        next := next + 1;
      }
      if guardHolds {
        pushed := Some(Nel);
      } else if unicode && byte == 0xE2 {
        var n1: Option<u8> := None;
        if next < |text| { n1 := Some(text[next]); next := next + 1; }
        var n2: Option<u8> := None;
        if next < |text| { n2 := Some(text[next]); next := next + 1; }
        if n1 == Some(0x80) {
          if n2 == Some(0xA8) {
            pushed := Some(Ls);
          } else if n2 == Some(0xA9) {
            pushed := Some(Ps);
          }
        }
      } else {
        counted := false;
      }
    }
  }

  /** `line_breaks(text, v, base_idx)`. */
  method LineBreaks(text: seq<u8>, v: seq<Entry>, baseIdx: nat, unicode: bool)
    returns (v': seq<Entry>, lineBreaks: nat)
    ensures v' == v + Scan(text, baseIdx, unicode).entries
    ensures lineBreaks == Scan(text, baseIdx, unicode).count
  {
    v' := v;
    lineBreaks := 0;
    var p := 0;
    ghost var all := Scan(text, baseIdx, unicode);
    while p < |text|
      invariant p <= |text|
      invariant v' + ScanFrom(text, p, baseIdx, unicode).entries == v + all.entries
      invariant lineBreaks + ScanFrom(text, p, baseIdx, unicode).count == all.count
      decreases |text| - p
    {
      ghost var v0, n0 := v', lineBreaks;
      var next, pushed, counted := MatchByte(text, p, unicode);
      if pushed.Some? {
        v' := v' + [(p + baseIdx, pushed.value)];
      }
      if counted {
        lineBreaks := lineBreaks + 1;
      }
      ScanFromStep(text, p, baseIdx, unicode, Scanned(v + all.entries, all.count), v0, v', n0, lineBreaks);
      p := next;
    }
  }

  /**
   * `line_breaks` with the counter raised only when an entry is pushed, so
   * that the value returned is the number of line breaks recorded.
   */
  method LineBreaksCorrected(text: seq<u8>, v: seq<Entry>, baseIdx: nat, unicode: bool)
    returns (v': seq<Entry>, lineBreaks: nat)
    ensures v' == v + Scan(text, baseIdx, unicode).entries
    ensures lineBreaks == |Scan(text, baseIdx, unicode).entries|
  {
    v' := v;
    lineBreaks := 0;
    var p := 0;
    ghost var all := Scan(text, baseIdx, unicode);
    while p < |text|
      invariant p <= |text|
      invariant v' + ScanFrom(text, p, baseIdx, unicode).entries == v + all.entries
      invariant lineBreaks == |v'| - |v|
      decreases |text| - p
    {
      ghost var v0 := v';
      var next, pushed, counted := MatchByte(text, p, unicode);
      if pushed.Some? {
        v' := v' + [(p + baseIdx, pushed.value)];
        lineBreaks := lineBreaks + 1;
      }
      assert v' == v0 + Pushed(pushed, p + baseIdx);
      EntriesStep(text, p, baseIdx, unicode, v + all.entries, v0, v');
      p := next;
    }
  }
}

/**
 * What the scan of `line_breaks` records, stated without reference to how
 * the loop consumes bytes.
 */
module StrUtilsProperties {
  import opened Wrappers
  import opened Utf8
  import opened Line
  import opened StrUtils

  ghost predicate StrictlyIncreasing(es: seq<Entry>) {
    forall i, j :: 0 <= i < j < |es| ==> es[i].0 < es[j].0
  }

  /** The indices of `es` lie in `[lo, hi)` and strictly increase. */
  ghost predicate InOrder(es: seq<Entry>, lo: nat, hi: nat) {
    && (forall k :: 0 <= k < |es| ==> lo <= es[k].0 < hi)
    && StrictlyIncreasing(es)
  }

  /** Pushed indices lie in `[base_idx + p, base_idx + |text|)` and strictly
      increase in scan order. */
  lemma {:induction false} ScanOrdered(text: seq<u8>, p: nat, base: nat, unicode: bool)
    requires p <= |text|
    ensures InOrder(ScanFrom(text, p, base, unicode).entries, p + base, |text| + base)
    decreases |text| - p
  {
    if p < |text| {
      var s := StepAt(text, p, unicode);
      var pushed, rest := Pushed(s.entry, p + base), ScanFrom(text, p + s.width, base, unicode).entries;
      ScanOrdered(text, p + s.width, base, unicode);
      PushedBeforeRest(s.entry, p + base, rest, p + s.width + base, |text| + base);
      assert ScanFrom(text, p, base, unicode).entries == pushed + rest;
    }
  }

  lemma PushedBeforeRest(entry: Option<Break>, idx: nat, rest: seq<Entry>, lo: nat, hi: nat)
    requires idx < lo && idx < hi && InOrder(rest, lo, hi)
    ensures InOrder(Pushed(entry, idx) + rest, idx, hi)
  {
  }

  /** Without the feature only `Lf` and `Crlf` are pushed. */
  lemma {:induction false} DefaultKinds(text: seq<u8>, p: nat, base: nat)
    requires p <= |text|
    ensures forall e :: e in ScanFrom(text, p, base, false).entries ==> e.1.InDefaultSet()
    decreases |text| - p
  {
    if p < |text| {
      DefaultKinds(text, p + StepAt(text, p, false).width, base);
    }
  }

  /** The UTF-8 bytes of every break kind, as the scanner matches them. */
  lemma BreakEncodings()
    ensures Lf.Encoding() == [0x0A]
    ensures Crlf.Encoding() == [0x0D, 0x0A]
    ensures Vt.Encoding() == [0x0B]
    ensures Ff.Encoding() == [0x0C]
    ensures Cr.Encoding() == [0x0D]
    ensures Nel.Encoding() == [0xC2, 0x85]
    ensures Ls.Encoding() == [0xE2, 0x80, 0xA8]
    ensures Ps.Encoding() == [0xE2, 0x80, 0xA9]
  {
  }

  /** The encoding of break kind `k` begins at byte `i` of `text`. */
  ghost predicate Occurs(text: seq<u8>, i: nat, k: Break) {
    i + k.LenBytes() <= |text| && text[i .. i + k.LenBytes()] == k.Encoding()
  }

  /** `Occurs` spelled out byte by byte for each kind. */
  lemma OccursBytes(text: seq<u8>, i: nat)
    ensures Occurs(text, i, Lf) <==> i < |text| && text[i] == 0x0A
    ensures Occurs(text, i, Crlf) <==> i + 1 < |text| && text[i] == 0x0D && text[i + 1] == 0x0A
    ensures Occurs(text, i, Vt) <==> i < |text| && text[i] == 0x0B
    ensures Occurs(text, i, Ff) <==> i < |text| && text[i] == 0x0C
    ensures Occurs(text, i, Cr) <==> i < |text| && text[i] == 0x0D
    ensures Occurs(text, i, Nel) <==> i + 1 < |text| && text[i] == 0xC2 && text[i + 1] == 0x85
    ensures Occurs(text, i, Ls) <==>
              i + 2 < |text| && text[i] == 0xE2 && text[i + 1] == 0x80 && text[i + 2] == 0xA8
    ensures Occurs(text, i, Ps) <==>
              i + 2 < |text| && text[i] == 0xE2 && text[i + 1] == 0x80 && text[i + 2] == 0xA9
  {
    BreakEncodings();
    if i + 3 <= |text| {
      assert text[i .. i + 3] == [text[i], text[i + 1], text[i + 2]];
    }
    if i + 2 <= |text| {
      assert text[i .. i + 2] == [text[i], text[i + 1]];
    }
    if i + 1 <= |text| {
      assert text[i .. i + 1] == [text[i]];
    }
  }

  /** The entry a scan step pushes is the break whose encoding begins at
      that byte. */
  lemma StepEntryOccurs(text: seq<u8>, p: nat, unicode: bool)
    requires p < |text|
    ensures var s := StepAt(text, p, unicode);
            s.entry.Some? ==> s.counted && Occurs(text, p, s.entry.value)
  {
    OccursBytes(text, p);
  }

  /** Every pushed entry `(idx, k)` sits where the encoding of `k` begins,
      `idx - base_idx` bytes into `text`. */
  lemma {:induction false} EntriesAreEncodings(text: seq<u8>, p: nat, base: nat, unicode: bool)
    requires p <= |text|
    ensures forall e :: e in ScanFrom(text, p, base, unicode).entries ==>
              e.0 >= base && Occurs(text, e.0 - base, e.1)
    decreases |text| - p
  {
    if p < |text| {
      var s := StepAt(text, p, unicode);
      var rest := ScanFrom(text, p + s.width, base, unicode).entries;
      StepEntryOccurs(text, p, unicode);
      EntriesAreEncodings(text, p + s.width, base, unicode);
      assert ScanFrom(text, p, base, unicode).entries == Pushed(s.entry, p + base) + rest;
    }
  }

  /**
   * The break that begins at byte `i`, by the encodings alone: a CR LF pair
   * is one `Crlf`, so its LF is not a break of its own and its CR is not a
   * `Cr`; the kinds beyond `Lf` and `Crlf` only with the feature.
   */
  ghost function BreakAt(text: seq<u8>, i: nat, unicode: bool): Option<Break>
    requires i < |text|
  {
    if Occurs(text, i, Crlf) then Some(Crlf)
    else if Occurs(text, i, Lf) then
      if 0 < i && text[i - 1] == 0x0D then None else Some(Lf)
    else if !unicode then None
    else if Occurs(text, i, Cr) then Some(Cr)
    else if Occurs(text, i, Vt) then Some(Vt)
    else if Occurs(text, i, Ff) then Some(Ff)
    else if Occurs(text, i, Nel) then Some(Nel)
    else if Occurs(text, i, Ls) then Some(Ls)
    else if Occurs(text, i, Ps) then Some(Ps)
    else None
  }

  /** The breaks beginning in `text[p..]`, in order. */
  ghost function BreaksFrom(text: seq<u8>, p: nat, base: nat, unicode: bool): seq<Entry>
    requires p <= |text|
    decreases |text| - p
  {
    if p == |text| then []
    else
      Pushed(BreakAt(text, p, unicode), p + base) + BreaksFrom(text, p + 1, base, unicode)
  }

  lemma {:induction false} BreaksFromMembers(text: seq<u8>, p: nat, base: nat, unicode: bool, e: Entry)
    requires p <= |text|
    ensures e in BreaksFrom(text, p, base, unicode) <==>
              base + p <= e.0 < base + |text| && BreakAt(text, e.0 - base, unicode) == Some(e.1)
    decreases |text| - p
  {
    if p < |text| {
      var pushed, rest := Pushed(BreakAt(text, p, unicode), p + base), BreaksFrom(text, p + 1, base, unicode);
      BreaksFromMembers(text, p + 1, base, unicode, e);
      assert BreaksFrom(text, p, base, unicode) == pushed + rest;
      assert e in pushed <==> e.0 == p + base && BreakAt(text, p, unicode) == Some(e.1);
    }
  }

  /** Each 0xC2 and 0xE2 lead byte is followed by the continuation bytes of
      its character, as in any valid UTF-8 text. */
  ghost predicate LeadsComplete(text: seq<u8>) {
    forall i :: 0 <= i < |text| ==> LeadComplete(text, i)
  }

  /** A 0xC2 or 0xE2 lead byte at `i` is followed by its continuation bytes. */
  ghost predicate LeadComplete(text: seq<u8>, i: nat)
    requires i < |text|
  {
    && (text[i] == 0xC2 ==> i + 1 < |text| && IsContinuation(text[i + 1]))
    && (text[i] == 0xE2 ==> i + 2 < |text| && IsContinuation(text[i + 1]) && IsContinuation(text[i + 2]))
  }

  lemma {:induction false} ValidLeadsComplete(s: seq<u8>)
    requires Valid(s)
    ensures LeadsComplete(s)
    decreases |s|
  {
    if s != [] {
      var w := HeadWidth(s);
      var tail := s[w..];
      ValidLeadsComplete(tail);
      forall i | 0 <= i < |s|
        ensures LeadComplete(s, i)
      {
        if i == 0 {
          if s[0] == 0xC2 {
            assert w == 2;
          } else if s[0] == 0xE2 {
            assert w == 3;
          }
        } else if i < w {
          assert IsContinuation(s[i]);
        } else {
          var k := i - w;
          assert LeadComplete(tail, k);
          assert s[i] == tail[k];
          if tail[k] == 0xC2 || tail[k] == 0xE2 {
            assert s[i + 1] == tail[k + 1];
          }
          if tail[k] == 0xE2 {
            assert s[i + 2] == tail[k + 2];
          }
        }
      }
    }
  }

  /** Byte `p` is not the LF of a CR LF pair. */
  ghost predicate NotMidCrlf(text: seq<u8>, p: nat) {
    p == 0 || |text| <= p || text[p - 1] != 0x0D || text[p] != 0x0A
  }

  /** A scan step at a position that is not inside a CR LF pair pushes the
      break that begins there, and the bytes it skips begin none. */
  lemma StepIsBreakAt(text: seq<u8>, p: nat, unicode: bool)
    requires p < |text|
    requires NotMidCrlf(text, p)
    requires unicode ==> LeadsComplete(text)
    ensures var s := StepAt(text, p, unicode);
            && s.entry == BreakAt(text, p, unicode)
            && (forall j :: p < j < p + s.width ==> BreakAt(text, j, unicode) == None)
            && NotMidCrlf(text, p + s.width)
  {
    var s := StepAt(text, p, unicode);
    StepEntryIsBreakAt(text, p, unicode);
    StepSkipsInnerBytes(text, p, unicode);
    forall j | p < j < p + s.width
      ensures BreakAt(text, j, unicode) == None
    {
      NoBreakAt(text, j, unicode);
    }
  }

  /** The bytes a step consumes after the first are continuation bytes or
      the LF of a CR LF pair, and the step does not stop inside a pair. */
  lemma StepSkipsInnerBytes(text: seq<u8>, p: nat, unicode: bool)
    requires p < |text|
    requires unicode ==> LeadsComplete(text)
    ensures var s := StepAt(text, p, unicode);
            && (forall j :: p < j < p + s.width ==>
                  IsContinuation(text[j]) || (text[j - 1] == 0x0D && text[j] == 0x0A))
            && NotMidCrlf(text, p + s.width)
  {
    if unicode {
      assert LeadComplete(text, p);
    }
  }

  lemma StepEntryIsBreakAt(text: seq<u8>, p: nat, unicode: bool)
    requires p < |text|
    requires NotMidCrlf(text, p)
    requires unicode ==> LeadsComplete(text)
    ensures StepAt(text, p, unicode).entry == BreakAt(text, p, unicode)
  {
    OccursBytes(text, p);
    if unicode {
      assert LeadComplete(text, p);
    }
  }

  /** No break begins at a continuation byte, nor at the LF of a CR LF pair. */
  lemma NoBreakAt(text: seq<u8>, j: nat, unicode: bool)
    requires j < |text|
    requires IsContinuation(text[j]) || (0 < j && text[j - 1] == 0x0D && text[j] == 0x0A)
    ensures BreakAt(text, j, unicode) == None
  {
    OccursBytes(text, j);
  }

  lemma {:induction false} BreaksSkip(text: seq<u8>, a: nat, b: nat, base: nat, unicode: bool)
    requires a <= b <= |text|
    requires forall j :: a <= j < b ==> BreakAt(text, j, unicode) == None
    ensures BreaksFrom(text, a, base, unicode) == BreaksFrom(text, b, base, unicode)
    decreases b - a
  {
    if a < b {
      BreaksSkip(text, a + 1, b, base, unicode);
    }
  }

  /** Where a scan step starts, the breaks ahead are the one it pushes
      followed by those after the bytes it consumes. */
  lemma BreaksFromStep(text: seq<u8>, p: nat, base: nat, unicode: bool)
    requires p < |text|
    requires NotMidCrlf(text, p)
    requires unicode ==> LeadsComplete(text)
    ensures var s := StepAt(text, p, unicode);
            && NotMidCrlf(text, p + s.width)
            && BreaksFrom(text, p, base, unicode)
               == Pushed(s.entry, p + base) + BreaksFrom(text, p + s.width, base, unicode)
  {
    var s := StepAt(text, p, unicode);
    StepIsBreakAt(text, p, unicode);
    BreaksSkip(text, p + 1, p + s.width, base, unicode);
  }

  lemma {:induction false} ScanFromIsBreaksFrom(text: seq<u8>, p: nat, base: nat, unicode: bool)
    requires p <= |text|
    requires NotMidCrlf(text, p)
    requires unicode ==> LeadsComplete(text)
    ensures ScanFrom(text, p, base, unicode).entries == BreaksFrom(text, p, base, unicode)
    decreases |text| - p
  {
    if p < |text| {
      BreaksFromStep(text, p, base, unicode);
      ScanFromIsBreaksFrom(text, p + StepAt(text, p, unicode).width, base, unicode);
    }
  }

  /**
   * The scan records exactly the breaks of the text, in order: in the
   * default configuration for every byte sequence, with the feature for
   * every valid UTF-8 text (which a Rust `str` always is).
   */
  lemma ScanRecordsEveryBreak(text: seq<u8>, base: nat, unicode: bool)
    requires unicode ==> Valid(text)
    ensures Scan(text, base, unicode).entries == BreaksFrom(text, 0, base, unicode)
    ensures forall e :: e in Scan(text, base, unicode).entries <==>
              base <= e.0 < base + |text| && BreakAt(text, e.0 - base, unicode) == Some(e.1)
  {
    if unicode {
      ValidLeadsComplete(text);
    }
    ScanFromIsBreaksFrom(text, 0, base, unicode);
    forall e: Entry ensures e in BreaksFrom(text, 0, base, unicode) <==>
              base <= e.0 < base + |text| && BreakAt(text, e.0 - base, unicode) == Some(e.1) {
      BreaksFromMembers(text, 0, base, unicode, e);
    }
  }

  /** A CR LF pair is recorded once, as `Crlf` at the CR, and its LF yields
      no entry of its own. */
  lemma CrlfIsOneEntry(text: seq<u8>, base: nat, unicode: bool, i: nat)
    requires unicode ==> Valid(text)
    requires i + 1 < |text| && text[i] == 0x0D && text[i + 1] == 0x0A
    ensures (base + i, Crlf) in Scan(text, base, unicode).entries
    ensures forall e :: e in Scan(text, base, unicode).entries ==> e.0 != base + i + 1
  {
    OccursBytes(text, i);
    assert BreakAt(text, i, unicode) == Some(Crlf);
    BreakRecorded(text, base, unicode, i, Crlf);
    NoBreakAt(text, i + 1, unicode);
    ScanRecordsEveryBreak(text, base, unicode);
  }

  /** With the feature, a break of the Unicode set (VT 0B, FF 0C, CR 0D,
      NEL C2 85, LS E2 80 A8, PS E2 80 A9) is recorded at the byte where its
      encoding begins, unless that CR begins a CR LF pair. */
  lemma UnicodeBreaksRecorded(text: seq<u8>, base: nat, i: nat, k: Break)
    requires Valid(text) && i < |text|
    requires Occurs(text, i, k) && !k.InDefaultSet() && !Occurs(text, i, Crlf)
    ensures (base + i, k) in Scan(text, base, true).entries
  {
    UnicodeBreakAt(text, i, k);
    BreakRecorded(text, base, true, i, k);
  }

  /** A break found at position `i` is recorded at `base + i`. */
  lemma BreakRecorded(text: seq<u8>, base: nat, unicode: bool, i: nat, k: Break)
    requires unicode ==> Valid(text)
    requires i < |text| && BreakAt(text, i, unicode) == Some(k)
    ensures (base + i, k) in Scan(text, base, unicode).entries
  {
    if unicode {
      ValidLeadsComplete(text);
    }
    ScanFromIsBreaksFrom(text, 0, base, unicode);
    BreakInBreaksFrom(text, 0, base, unicode, i);
  }

  lemma {:induction false} BreakInBreaksFrom(text: seq<u8>, p: nat, base: nat, unicode: bool, i: nat)
    requires p <= i < |text| && BreakAt(text, i, unicode).Some?
    ensures (base + i, BreakAt(text, i, unicode).value) in BreaksFrom(text, p, base, unicode)
    decreases i - p
  {
    var pushed, rest := Pushed(BreakAt(text, p, unicode), p + base), BreaksFrom(text, p + 1, base, unicode);
    assert BreaksFrom(text, p, base, unicode) == pushed + rest;
    if p < i {
      BreakInBreaksFrom(text, p + 1, base, unicode, i);
    } else {
      assert pushed == [(base + i, BreakAt(text, i, unicode).value)];
    }
  }

  /** With the feature, a break outside the default set that is not the CR of
      a CR LF is the break found at its position. */
  lemma UnicodeBreakAt(text: seq<u8>, i: nat, k: Break)
    requires i < |text|
    requires Occurs(text, i, k) && !k.InDefaultSet() && !Occurs(text, i, Crlf)
    ensures BreakAt(text, i, true) == Some(k)
  {
    OccursBytes(text, i);
  }

  /** The number of CR bytes in `text[p..]` that no LF follows. */
  function LoneCrs(text: seq<u8>, p: nat): nat
    requires p <= |text|
    decreases |text| - p
  {
    if p == |text| then 0
    else
      (if text[p] == 0x0D && !(p + 1 < |text| && text[p + 1] == 0x0A) then 1 else 0)
      + LoneCrs(text, p + 1)
  }

  /** Every push raises the counter, so the value returned is at least the
      number of entries pushed. */
  lemma {:induction false} CountCoversEntries(text: seq<u8>, p: nat, base: nat, unicode: bool)
    requires p <= |text|
    ensures ScanFrom(text, p, base, unicode).count >= |ScanFrom(text, p, base, unicode).entries|
    decreases |text| - p
  {
    if p < |text| {
      CountCoversEntries(text, p + StepAt(text, p, unicode).width, base, unicode);
    }
  }

  /** Without the feature, the value returned counts every pushed entry and
      also every lone CR, which pushes nothing. */
  lemma {:induction false} DefaultCount(text: seq<u8>, p: nat, base: nat)
    requires p <= |text|
    ensures ScanFrom(text, p, base, false).count
              == |ScanFrom(text, p, base, false).entries| + LoneCrs(text, p)
    decreases |text| - p
  {
    if p < |text| {
      var s := StepAt(text, p, false);
      DefaultCount(text, p + s.width, base);
      if s.width == 2 {
        assert LoneCrs(text, p + 1) == LoneCrs(text, p + 2);
      }
    }
  }

  /** A lone CR, without the feature: nothing pushed, 1 returned. */
  lemma LoneCrCountedByDefault()
    ensures Scan([0x0D], 0, false) == Scanned([], 1)
  {
  }

  /** "…" (U+2026) is encoded as the valid bytes E2 80 A6. */
  lemma EllipsisEncoding()
    ensures Encode("\U{2026}") == [0xE2, 0x80, 0xA6] && Valid([0xE2, 0x80, 0xA6])
  {
    var t: seq<u8> := [0xE2, 0x80, 0xA6];
    assert Valid(t[3..]);
  }

  /** "…" holds no line break of either set. */
  lemma EllipsisHasNoBreaks()
    ensures BreaksFrom([0xE2, 0x80, 0xA6], 0, 0, true) == []
  {
    var t: seq<u8> := [0xE2, 0x80, 0xA6];
    OccursBytes(t, 0);
    OccursBytes(t, 1);
    OccursBytes(t, 2);
  }

  /** Scanning "…" with the feature pushes nothing and returns 1. */
  lemma EllipsisCountedWithFeature()
    ensures Scan([0xE2, 0x80, 0xA6], 0, true) == Scanned([], 1)
  {
    var t: seq<u8> := [0xE2, 0x80, 0xA6];
    assert StepAt(t, 0, true) == Step(3, None, true);
  }

  lemma BreaksFromUnfold(text: seq<u8>, p: nat, base: nat, unicode: bool)
    requires p <= |text|
    ensures p == |text| ==> BreaksFrom(text, p, base, unicode) == []
    ensures p < |text| ==>
              (BreaksFrom(text, p, base, unicode)
               == Pushed(BreakAt(text, p, unicode), p + base) + BreaksFrom(text, p + 1, base, unicode))
  {
  }

  /** Printable ASCII bytes throughout `text[a..b]`. */
  ghost predicate PlainBytes(text: seq<u8>, a: nat, b: nat) {
    forall j :: a <= j < b && j < |text| ==> 0x20 <= text[j] < 0x7F
  }

  /** Printable ASCII bytes begin no line break. */
  lemma {:induction false} PlainBytesSkipped(text: seq<u8>, a: nat, b: nat, base: nat, unicode: bool)
    requires a <= b <= |text| && PlainBytes(text, a, b)
    ensures BreaksFrom(text, a, base, unicode) == BreaksFrom(text, b, base, unicode)
  {
    forall j | a <= j < b ensures BreakAt(text, j, unicode) == None {
      OccursBytes(text, j);
    }
    BreaksSkip(text, a, b, base, unicode);
  }

  lemma LfBreakAt(text: seq<u8>, i: nat, unicode: bool)
    requires i < |text| && text[i] == 0x0A && (i == 0 || text[i - 1] != 0x0D)
    ensures BreakAt(text, i, unicode) == Some(Lf)
  {
    OccursBytes(text, i);
  }

  lemma CrlfBreakAt(text: seq<u8>, i: nat, unicode: bool)
    requires i + 1 < |text| && text[i] == 0x0D && text[i + 1] == 0x0A
    ensures BreakAt(text, i, unicode) == Some(Crlf)
  {
    OccursBytes(text, i);
  }

  /** A text of printable ASCII apart from an LF at `lf` and a CR LF at
      `cr` holds exactly those two breaks. */
  lemma BreaksOfTwoLines(text: seq<u8>, lf: nat, cr: nat, unicode: bool)
    requires lf < cr && cr + 1 < |text|
    requires text[lf] == 0x0A && text[cr] == 0x0D && text[cr + 1] == 0x0A
    requires PlainBytes(text, 0, lf) && PlainBytes(text, lf + 1, cr) && PlainBytes(text, cr + 2, |text|)
    ensures BreaksFrom(text, 0, 0, unicode) == [(lf, Lf), (cr, Crlf)]
  {
    LastLineBreak(text, cr, unicode);
    PlainBytesSkipped(text, lf + 1, cr, 0, unicode);
    assert BreaksFrom(text, lf + 1, 0, unicode) == [(cr, Crlf)];
    LfBreakAt(text, lf, unicode);
    BreaksFromUnfold(text, lf, 0, unicode);
    assert Pushed(BreakAt(text, lf, unicode), lf + 0) == [(lf, Lf)];
    TwoEntries((lf, Lf), (cr, Crlf));
    PlainBytesSkipped(text, 0, lf, 0, unicode);
  }

  lemma TwoEntries(x: Entry, y: Entry)
    ensures [x] + [y] == [x, y]
  {
  }

  /** A CR LF followed by printable ASCII up to the end is the last break. */
  lemma LastLineBreak(text: seq<u8>, cr: nat, unicode: bool)
    requires cr + 1 < |text| && text[cr] == 0x0D && text[cr + 1] == 0x0A
    requires PlainBytes(text, cr + 2, |text|)
    ensures BreaksFrom(text, cr, 0, unicode) == [(cr, Crlf)]
  {
    PlainBytesSkipped(text, cr + 2, |text|, 0, unicode);
    BreaksFromUnfold(text, |text|, 0, unicode);
    NoBreakAt(text, cr + 1, unicode);
    BreaksFromUnfold(text, cr + 1, 0, unicode);
    assert BreaksFrom(text, cr + 1, 0, unicode) == [];
    CrlfBreakAt(text, cr, unicode);
    BreaksFromUnfold(text, cr, 0, unicode);
  }

  /** Three lines of printable ASCII joined by an LF and a CR LF hold
      exactly those two breaks. */
  lemma TwoLineBreaks(a: seq<u8>, b: seq<u8>, c: seq<u8>, unicode: bool)
    requires PlainBytes(a, 0, |a|) && PlainBytes(b, 0, |b|) && PlainBytes(c, 0, |c|)
    ensures var text := a + [0x0A] + b + [0x0D, 0x0A] + c;
            BreaksFrom(text, 0, 0, unicode) == [(|a|, Lf), (|a| + 1 + |b|, Crlf)]
  {
    var text := a + [0x0A] + b + [0x0D, 0x0A] + c;
    var lf, cr := |a|, |a| + 1 + |b|;
    assert text[lf] == 0x0A && text[cr] == 0x0D && text[cr + 1] == 0x0A;
    assert PlainBytes(text, 0, lf) by {
      forall j | 0 <= j < lf ensures text[j] == a[j] { }
    }
    assert PlainBytes(text, lf + 1, cr) by {
      forall j | lf + 1 <= j < cr ensures text[j] == b[j - lf - 1] { }
    }
    assert PlainBytes(text, cr + 2, |text|) by {
      forall j | cr + 2 <= j < |text| ensures text[j] == c[j - cr - 2] { }
    }
    BreaksOfTwoLines(text, lf, cr, unicode);
  }

  lemma TwoLinesAscii(a: seq<u8>, b: seq<u8>, c: seq<u8>)
    requires PlainBytes(a, 0, |a|) && PlainBytes(b, 0, |b|) && PlainBytes(c, 0, |c|)
    ensures var text := a + [0x0A] + b + [0x0D, 0x0A] + c;
            forall j :: 0 <= j < |text| ==> text[j] < 0x80
  {
    var text := a + [0x0A] + b + [0x0D, 0x0A] + c;
    forall j | 0 <= j < |text| ensures text[j] < 0x80 {
      if j < |a| {
        assert text[j] == a[j];
      } else if |a| + 1 <= j < |a| + 1 + |b| {
        assert text[j] == b[j - |a| - 1];
      } else if |a| + |b| + 3 <= j {
        assert text[j] == c[j - |a| - |b| - 3];
      }
    }
  }

  /** The lines of the crate's `count_lines` test, byte for byte (the text
      is ASCII): "My name is:", "Not 123, but it is", "Not 321 either.". */
  const TestLine1: seq<u8> := [77, 121, 32, 110, 97, 109, 101, 32, 105, 115, 58]
  const TestLine2: seq<u8> :=
    [78, 111, 116, 32, 49, 50, 51, 44, 32, 98, 117, 116, 32, 105, 116, 32, 105, 115]
  const TestLine3: seq<u8> := [78, 111, 116, 32, 51, 50, 49, 32, 101, 105, 116, 104, 101, 114, 46]

  /** The crate's `count_lines` test, joining its lines with an LF and a
      CR LF: two entries, with or without the feature. */
  lemma CountLines(unicode: bool)
    ensures var text := TestLine1 + [0x0A] + TestLine2 + [0x0D, 0x0A] + TestLine3;
            Scan(text, 0, unicode).entries == [(11, Lf), (30, Crlf)]
  {
    var text := TestLine1 + [0x0A] + TestLine2 + [0x0D, 0x0A] + TestLine3;
    assert PlainBytes(TestLine1, 0, 11) && PlainBytes(TestLine2, 0, 18) && PlainBytes(TestLine3, 0, 15);
    TwoLineBreaks(TestLine1, TestLine2, TestLine3, unicode);
    TwoLinesAscii(TestLine1, TestLine2, TestLine3);
    AsciiValid(text);
    ScanRecordsEveryBreak(text, 0, unicode);
  }
}
