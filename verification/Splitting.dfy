// Splitting a body that is too long: at the ends of statements where there are any, by lines
// otherwise. Whichever way, every visible character of the text is carried over, in order.

module Splitting {
  import opened Wrappers
  import opened NormalizeBody
  import opened Chunker

  // ---------- Splitting an oversize body ----------

  const OVERSIZE_CHAR_THRESHOLD := 2048

  /** Consecutive pieces from `from` to `to`. */
  ghost predicate Tiles(pieces: seq<Range>, from: nat, to: nat) {
    if pieces == [] then from == to
    else
      var last := pieces[|pieces| - 1];
      last.start < last.end == to && Tiles(pieces[..|pieces| - 1], from, last.start)
  }

  lemma TilesSnoc(pieces: seq<Range>, from: nat, mid: nat, to: nat)
    requires Tiles(pieces, from, mid) && mid < to
    ensures Tiles(pieces + [Range(mid, to)], from, to)
  {
    assert (pieces + [Range(mid, to)])[..|pieces|] == pieces;
  }

  ghost predicate NoneInside(ends: seq<nat>, base: nat, from: nat, to: nat) {
    forall j | 0 <= j < |ends| :: !(from + base < ends[j] < to + base)
  }

  /** The statements that end between `from` and `to` end within half the limit. */
  ghost predicate Early(ends: seq<nat>, base: nat, from: nat, to: nat) {
    forall j | 0 <= j < |ends| :: from + base < ends[j] <= to + base ==> ends[j] - base - from < OVERSIZE_CHAR_THRESHOLD / 2
  }

  /** A piece ends where a statement does, at the first one that brings it to half the limit; and
      no statement ends inside a piece over the limit. */
  ghost predicate WellCut(p: Range, ends: seq<nat>, base: nat) {
    && p.start < p.end && p.end + base in ends
    && Early(ends, base, p.start, p.end - 1)
    && (p.end - p.start > OVERSIZE_CHAR_THRESHOLD ==> NoneInside(ends, base, p.start, p.end))
  }

  predicate OverLimit(a: Range, b: Range) {
    b.end - a.start > OVERSIZE_CHAR_THRESHOLD
  }

  /** Piece `k` has half the limit, unless the next one is a single statement with which it would
      be over the limit. So the last piece always has half the limit. */
  ghost predicate WellFilled(pieces: seq<Range>, ends: seq<nat>, base: nat, k: nat)
    requires k < |pieces|
  {
    || pieces[k].end - pieces[k].start >= OVERSIZE_CHAR_THRESHOLD / 2
    || (k + 1 < |pieces| && OverLimit(pieces[k], pieces[k + 1])
        && NoneInside(ends, base, pieces[k + 1].start, pieces[k + 1].end))
  }

  /** The cuts of a text, up to a rest that begins at `start` and has no late statement end. */
  ghost predicate Cuts(pieces: seq<Range>, start: nat, ends: seq<nat>, base: nat, length: nat) {
    && start <= length && Tiles(pieces, 0, start)
    && (forall k | 0 <= k < |pieces| :: WellCut(pieces[k], ends, base))
    && (forall k | 0 <= k < |pieces| :: WellFilled(pieces, ends, base, k))
    && Early(ends, base, start, length)
  }

  lemma FilledSnoc(pieces: seq<Range>, ends: seq<nat>, base: nat, p: Range)
    requires forall k | 0 <= k < |pieces| :: WellFilled(pieces, ends, base, k)
    requires p.end - p.start >= OVERSIZE_CHAR_THRESHOLD / 2
    ensures forall k | 0 <= k < |pieces + [p]| :: WellFilled(pieces + [p], ends, base, k)
  {
    hide NoneInside;
    forall k | 0 <= k < |pieces|
      ensures WellFilled(pieces + [p], ends, base, k)
    {
      assert WellFilled(pieces, ends, base, k);
    }
  }

  lemma FilledPair(pieces: seq<Range>, ends: seq<nat>, base: nat, p: Range, q: Range)
    requires forall k | 0 <= k < |pieces| :: WellFilled(pieces, ends, base, k)
    requires OverLimit(p, q) && p.end == q.start && p.end - p.start < OVERSIZE_CHAR_THRESHOLD / 2
    requires NoneInside(ends, base, q.start, q.end)
    ensures forall k | 0 <= k < |pieces + [p] + [q]| :: WellFilled(pieces + [p] + [q], ends, base, k)
  {
    hide NoneInside;
    forall k | 0 <= k < |pieces|
      ensures WellFilled(pieces + [p] + [q], ends, base, k)
    {
      assert WellFilled(pieces, ends, base, k);
    }
  }

  /** Of the first `n` ends, none that lies in the text is beyond `lastCut`. */
  ghost predicate Passed(ends: seq<nat>, base: nat, n: nat, lastCut: nat, length: nat) {
    forall j | 0 <= j < n <= |ends| :: ends[j] <= lastCut + base || ends[j] > length + base
  }

  ghost predicate Increasing(ends: seq<nat>) {
    forall j, k | 0 <= j < k < |ends| :: ends[j] < ends[k]
  }

  lemma NothingBetween(ends: seq<nat>, base: nat, i: nat, lastCut: nat, length: nat)
    requires Increasing(ends) && i < |ends| && Passed(ends, base, i, lastCut, length)
    requires base <= ends[i] <= length + base
    ensures NoneInside(ends, base, lastCut, ends[i] - base)
  {
  }

  /** Everything passed up to the last cut, which is near, is early. */
  lemma PassedEarly(ends: seq<nat>, base: nat, i: nat, start: nat, lastCut: nat, length: nat, to: nat)
    requires i <= |ends| && Passed(ends, base, i, lastCut, length) && start <= lastCut
    requires lastCut > start ==> lastCut - start < OVERSIZE_CHAR_THRESHOLD / 2
    requires to <= length && forall j | i <= j < |ends| :: to + base < ends[j]
    ensures Early(ends, base, start, to)
  {
  }

  lemma PassedNone(ends: seq<nat>, base: nat, length: nat)
    ensures Passed(ends, base, 0, 0, length)
  {
  }

  lemma PassedNext(ends: seq<nat>, base: nat, i: nat, lastCut: nat, length: nat)
    requires i < |ends| && Passed(ends, base, i, lastCut, length)
    ensures ends[i] <= lastCut + base || ends[i] > length + base ==> Passed(ends, base, i + 1, lastCut, length)
    ensures lastCut + base <= ends[i] ==> Passed(ends, base, i + 1, ends[i] - base, length)
  {
  }

  lemma NoPieces()
    ensures Tiles([], 0, 0)
  {
  }

  /** Cuts at statement ends, which come sorted and without repetition. The pieces lie end to
      end from the start of the text, so no character is lost or doubled; the rest of the text
      begins at `start`. */
  method CutAtStatements(ends: seq<nat>, base: nat, length: nat) returns (pieces: seq<Range>, start: nat)
    requires Increasing(ends)
    ensures Cuts(pieces, start, ends, base, length)
  {
    hide Tiles, NoneInside, Passed, Early, WellFilled;
    NoPieces();
    pieces, start := [], 0;
    var lastCut := 0;
    PassedNone(ends, base, length);
    for i := 0 to |ends|
      invariant start <= lastCut <= length && Tiles(pieces, 0, start)
      invariant forall k | 0 <= k < |pieces| :: WellCut(pieces[k], ends, base)
      invariant forall k | 0 <= k < |pieces| :: WellFilled(pieces, ends, base, k)
      invariant lastCut > start ==> lastCut - start < OVERSIZE_CHAR_THRESHOLD / 2 && lastCut + base in ends
      invariant lastCut > 0 ==> forall j | i <= j < |ends| :: lastCut + base < ends[j]
      invariant Passed(ends, base, i, lastCut, length)
    {
      var end := if ends[i] < base then 0 else ends[i] - base;
      PassedNext(ends, base, i, lastCut, length);
      if end <= start || end > length {
        continue;
      }
      assert end + base == ends[i] && end > lastCut;
      var count := end - start;
      NothingBetween(ends, base, i, lastCut, length);
      if OVERSIZE_CHAR_THRESHOLD / 2 <= count <= OVERSIZE_CHAR_THRESHOLD {
        PassedEarly(ends, base, i, start, lastCut, length, end - 1);
        TilesSnoc(pieces, 0, start, end);
        FilledSnoc(pieces, ends, base, Range(start, end));
        pieces := pieces + [Range(start, end)];
        start, lastCut := end, end;
      } else if count > OVERSIZE_CHAR_THRESHOLD {
        PassedEarly(ends, base, i, lastCut, lastCut, length, end - 1);
        if lastCut > start {
          PassedEarly(ends, base, i, start, lastCut, length, lastCut - 1);
          TilesSnoc(pieces, 0, start, lastCut);
          FilledPair(pieces, ends, base, Range(start, lastCut), Range(lastCut, end));
          pieces := pieces + [Range(start, lastCut)];
          start := lastCut;
        } else {
          FilledSnoc(pieces, ends, base, Range(start, end));
        }
        TilesSnoc(pieces, 0, start, end);
        pieces := pieces + [Range(start, end)];
        start, lastCut := end, end;
      } else {
        lastCut := end;
      }
    }
    PassedEarly(ends, base, |ends|, start, lastCut, length, length);
  }

  /** Where the pieces of a tiling stand. */
  lemma {:induction false} TilesAt(pieces: seq<Range>, from: nat, to: nat, k: nat)
    requires Tiles(pieces, from, to) && k < |pieces|
    ensures pieces[k].start == if k == 0 then from else pieces[k - 1].end
    ensures pieces[k].end <= to && pieces[|pieces| - 1].end == to
  {
    var last := |pieces| - 1;
    if k < last {
      TilesAt(pieces[..last], from, pieces[last].start, k);
    } else if k > 0 {
      TilesAt(pieces[..last], from, pieces[last].start, k - 1);
    }
  }

  lemma CutAt(pieces: seq<Range>, start: nat, ends: seq<nat>, base: nat, length: nat, k: nat)
    requires Cuts(pieces, start, ends, base, length) && k < |pieces|
    ensures WellCut(pieces[k], ends, base) && WellFilled(pieces, ends, base, k)
    ensures k + 1 < |pieces| ==> pieces[k + 1].start == pieces[k].end
  {
    hide Tiles, WellCut, WellFilled, Early;
    if k + 1 < |pieces| {
      TilesAt(pieces, 0, start, k + 1);
    }
  }

  /** Of two cuts that agree so far, neither next piece ends before the other. */
  lemma NotBefore(a: seq<Range>, start: nat, b: seq<Range>, start': nat, ends: seq<nat>, base: nat, length: nat, k: nat)
    requires Cuts(a, start, ends, base, length) && Cuts(b, start', ends, base, length)
    requires k < |a| && k < |b| && a[k].start == b[k].start
    ensures a[k].end >= b[k].end
  {
    hide Cuts, Tiles;
    CutAt(a, start, ends, base, length, k);
    CutAt(b, start', ends, base, length, k);
    var j :| 0 <= j < |ends| && ends[j] == a[k].end + base;
    var i :| 0 <= i < |ends| && ends[i] == b[k].end + base;
    assert a[k].end >= b[k].end;
  }

  /** From where a piece begins, some statement end is at least half the limit away. */
  lemma ReachesHalf(pieces: seq<Range>, start: nat, ends: seq<nat>, base: nat, length: nat, k: nat) returns (j: nat)
    requires Cuts(pieces, start, ends, base, length) && k < |pieces|
    ensures j < |ends| && pieces[k].start + OVERSIZE_CHAR_THRESHOLD / 2 <= ends[j] - base <= length
  {
    hide Tiles, Early;
    TilesAt(pieces, 0, start, k);
    assert WellFilled(pieces, ends, base, k);
    var far := if pieces[k].end - pieces[k].start >= OVERSIZE_CHAR_THRESHOLD / 2 then k else k + 1;
    TilesAt(pieces, 0, start, far);
    assert WellCut(pieces[far], ends, base);
    j :| 0 <= j < |ends| && ends[j] == pieces[far].end + base;
  }

  /** No cut goes on where another one stops. */
  lemma NotLonger(a: seq<Range>, start: nat, b: seq<Range>, start': nat, ends: seq<nat>, base: nat, length: nat)
    requires Cuts(a, start, ends, base, length) && Cuts(b, start', ends, base, length)
    requires |a| < |b|
    ensures b[|a|].start != start
  {
    var j := ReachesHalf(b, start', ends, base, length, |a|);
  }

  lemma CutStarts(a: seq<Range>, start: nat, ends: seq<nat>, base: nat, length: nat, k: nat)
    requires Cuts(a, start, ends, base, length)
    ensures k < |a| ==> a[k].start == if k == 0 then 0 else a[k - 1].end
    ensures start == if a == [] then 0 else a[|a| - 1].end
  {
    if k < |a| {
      TilesAt(a, 0, start, k);
    }
    if a != [] {
      TilesAt(a, 0, start, |a| - 1);
    }
  }

  lemma {:induction false} CutsAgree(a: seq<Range>, start: nat, b: seq<Range>, start': nat, ends: seq<nat>, base: nat, length: nat, k: nat)
    requires Cuts(a, start, ends, base, length) && Cuts(b, start', ends, base, length)
    requires k <= |a| && k <= |b|
    ensures a[..k] == b[..k]
  {
    hide Cuts;
    if k > 0 {
      var i := k - 1;
      CutsAgree(a, start, b, start', ends, base, length, i);
      CutStarts(a, start, ends, base, length, i);
      CutStarts(b, start', ends, base, length, i);
      assert i > 0 ==> a[i - 1] == a[..i][i - 1] == b[..i][i - 1] == b[i - 1];
      NotBefore(a, start, b, start', ends, base, length, i);
      NotBefore(b, start', a, start, ends, base, length, i);
      assert a[i] == b[i];
    }
  }

  /** A text has exactly one such cut: the one the method makes. */
  lemma CutsUnique(a: seq<Range>, start: nat, b: seq<Range>, start': nat, ends: seq<nat>, base: nat, length: nat)
    requires Cuts(a, start, ends, base, length) && Cuts(b, start', ends, base, length)
    ensures a == b && start == start'
  {
    hide Cuts;
    var n := if |a| < |b| then |a| else |b|;
    CutsAgree(a, start, b, start', ends, base, length, n);
    assert a[..n] == b[..n];
    CutStarts(a, start, ends, base, length, |b|);
    CutStarts(b, start', ends, base, length, |a|);
    assert n > 0 ==> a[n - 1] == a[..n][n - 1] == b[..n][n - 1] == b[n - 1];
    if |a| < |b| {
      NotLonger(a, start, b, start', ends, base, length);
    } else if |b| < |a| {
      NotLonger(b, start', a, start, ends, base, length);
    }
  }

  function PieceText(text: string, pieces: seq<Range>): string {
    if pieces == [] then ""
    else
      var last := pieces[|pieces| - 1];
      PieceText(text, pieces[..|pieces| - 1]) + if last.start <= last.end <= |text| then text[last.start..last.end] else ""
  }

  /** The text of pieces laid end to end is the text itself. */
  lemma {:induction false} TilesRejoin(text: string, pieces: seq<Range>, to: nat)
    requires Tiles(pieces, 0, to) && to <= |text|
    ensures PieceText(text, pieces) == text[..to]
  {
    if pieces != [] {
      var last := pieces[|pieces| - 1];
      TilesRejoin(text, pieces[..|pieces| - 1], last.start);
      assert text[..to] == text[..last.start] + text[last.start..to];
    }
  }

  // ---------- Splitting without statements ----------

  /** The text in front of which the signature stands, unless it begins with it. */
  function PrefixSig(signature: string, body: string): (text: string)
    ensures signature <= text && (text == body || text == signature + "\n" + body)
    ensures signature <= body ==> text == body
  {
    if signature <= body then body else signature + "\n" + body
  }

  /** A line without its terminator: a carriage return counts as part of one. */
  function StripCr(line: string): string {
    if line != "" && line[|line| - 1] == '\r' then line[..|line| - 1] else line
  }

  function TerminatedLines(parts: seq<string>): seq<string> {
    seq(|parts|, i requires 0 <= i < |parts| => StripCr(parts[i]))
  }

  /** The lines of a text as the standard library iterates them: what follows the last line end
      is a line of its own only if there is something, and it keeps its carriage return. */
  function Lines(body: string): seq<string> {
    var parts := Split(body);
    var last := |parts| - 1;
    TerminatedLines(parts[..last]) + if parts[last] == "" then [] else [parts[last]]
  }

  /** The lines that are not empty. */
  function NonEmpty(lines: seq<string>): seq<string> {
    if lines == [] then []
    else NonEmpty(lines[..|lines| - 1]) + if lines[|lines| - 1] == "" then [] else [lines[|lines| - 1]]
  }

  function Flat(groups: seq<seq<string>>): seq<string> {
    if groups == [] then [] else Flat(groups[..|groups| - 1]) + groups[|groups| - 1]
  }

  lemma {:induction false} NonEmptyConcat(a: seq<string>, b: seq<string>)
    ensures NonEmpty(a + b) == NonEmpty(a) + NonEmpty(b)
  {
    if b == [] {
      assert a + b == a;
    } else {
      assert (a + b)[..|a + b| - 1] == a + b[..|b| - 1];
      NonEmptyConcat(a, b[..|b| - 1]);
    }
  }

  lemma NonEmptyOne(line: string)
    ensures NonEmpty([line]) == if line == "" then [] else [line]
  {
    assert [line][..0] == [];
  }

  lemma {:induction false} JoinSnoc(lines: seq<string>, line: string)
    requires lines != []
    ensures Join(lines + [line]) == Join(lines) + "\n" + line
  {
    if |lines| == 1 {
      assert lines + [line] == [lines[0], line];
    } else {
      assert (lines + [line])[1..] == lines[1..] + [line];
      JoinSnoc(lines[1..], line);
    }
  }

  /** Each fragment is the text of its group of lines, within the limit unless it is one line. */
  ghost predicate Fragment(signature: string, group: seq<string>, text: string) {
    && group != []
    && text == PrefixSig(signature, Join(group))
    && (|Join(group)| <= OVERSIZE_CHAR_THRESHOLD || |group| == 1)
  }

  predicate HeldText(held: seq<string>, buf: string) {
    held != [] && buf == Join(held) && (|buf| <= OVERSIZE_CHAR_THRESHOLD || |held| == 1)
  }

  /** `groups` are the fragments done, and `held` the lines of the one being filled. */
  ghost predicate Filling(signature: string, done: seq<string>, groups: seq<seq<string>>, out: seq<string>, held: seq<string>, buf: string) {
    && |out| == |groups|
    && (forall k | 0 <= k < |out| :: Fragment(signature, groups[k], out[k]))
    && NonEmpty(done) == NonEmpty(Flat(groups) + held)
    && (if buf == "" then NonEmpty(held) == [] else HeldText(held, buf))
  }

  /** `line` does not fit behind the last group. */
  ghost predicate Spills(groups: seq<seq<string>>, line: string) {
    groups == [] || |Join(groups[|groups| - 1])| + |line| + 1 > OVERSIZE_CHAR_THRESHOLD
  }

  /** No group has room for the line that begins the next one. */
  ghost predicate Packed(groups: seq<seq<string>>) {
    forall k | 0 < k < |groups| :: groups[k] != [] && Spills(groups[..k], groups[k][0])
  }

  lemma PackedSnoc(groups: seq<seq<string>>, held: seq<string>)
    requires Packed(groups) && held != [] && Spills(groups, held[0])
    ensures Packed(groups + [held])
  {
    hide Spills;
    var g := groups + [held];
    assert groups[..|groups|] == groups;
    forall k | 0 < k < |g|
      ensures g[k] != [] && Spills(g[..k], g[k][0])
    {
      assert g[..k] == groups[..k];
    }
  }

  lemma FlushHeld(signature: string, done: seq<string>, groups: seq<seq<string>>, out: seq<string>, held: seq<string>, buf: string)
    requires Filling(signature, done, groups, out, held, buf) && buf != ""
    ensures Filling(signature, done, groups + [held], out + [PrefixSig(signature, buf)], [], "")
    ensures held != [] && Join(held) == buf
  {
    assert (groups + [held])[..|groups|] == groups;
    assert Flat(groups + [held]) + [] == Flat(groups) + held;
  }

  lemma HoldFirst(signature: string, done: seq<string>, groups: seq<seq<string>>, out: seq<string>, held: seq<string>,
                  line: string)
    requires Filling(signature, done, groups, out, held, "")
    ensures Filling(signature, done + [line], groups, out, [line], line)
  {
    hide Fragment, NonEmpty;
    NonEmptyConcat(done, [line]);
    NonEmptyConcat(Flat(groups), held);
    NonEmptyConcat(Flat(groups), [line]);
    NonEmptyOne(line);
  }

  lemma HoldMore(signature: string, done: seq<string>, groups: seq<seq<string>>, out: seq<string>, held: seq<string>, buf: string,
                 line: string)
    requires Filling(signature, done, groups, out, held, buf) && buf != ""
    requires |buf| + |line| + 1 <= OVERSIZE_CHAR_THRESHOLD
    ensures Filling(signature, done + [line], groups, out, held + [line], buf + "\n" + line)
  {
    hide Fragment, NonEmpty;
    NonEmptyConcat(done, [line]);
    NonEmptyConcat(Flat(groups) + held, [line]);
    assert Flat(groups) + held + [line] == Flat(groups) + (held + [line]);
    JoinSnoc(held, line);
  }

  lemma NothingSplit(signature: string)
    ensures Filling(signature, [], [], [], [], "")
  {
  }

  lemma NothingPacked()
    ensures Packed([])
  {
  }

  lemma SplitDone(signature: string, lines: seq<string>, groups: seq<seq<string>>, out: seq<string>, held: seq<string>)
    requires Filling(signature, lines, groups, out, held, "")
    ensures |out| == |groups| && forall k | 0 <= k < |out| :: Fragment(signature, groups[k], out[k])
    ensures NonEmpty(Flat(groups)) == NonEmpty(lines)
  {
    NonEmptyConcat(Flat(groups), held);
  }

  /** Every fragment begins with the signature. */
  ghost predicate Signed(signature: string, out: seq<string>) {
    forall k | 0 <= k < |out| :: signature <= out[k]
  }

  /** `out` are the lines of a text in groups, each as long as the limit allows. */
  ghost predicate LineFragments(body: string, signature: string, groups: seq<seq<string>>, out: seq<string>) {
    && NonEmpty(Flat(groups)) == NonEmpty(Lines(body)) && Packed(groups)
    && (if groups == [] then out == [PrefixSig(signature, body)]
        else |out| == |groups| && forall k | 0 <= k < |out| :: Fragment(signature, groups[k], out[k]))
  }

  lemma LinesSigned(body: string, signature: string, groups: seq<seq<string>>, out: seq<string>)
    requires LineFragments(body, signature, groups, out)
    ensures Signed(signature, out)
  {
    hide NonEmpty, Flat, Lines, Packed;
    if groups != [] {
      forall k | 0 <= k < |out|
        ensures signature <= out[k]
      {
        assert Fragment(signature, groups[k], out[k]);
      }
    }
  }

  /** Fills fragments line by line, each as far as the limit allows. No line that says anything
      is lost, doubled or moved. */
  method HardSplit(body: string, signature: string) returns (out: seq<string>)
    ensures exists groups :: LineFragments(body, signature, groups, out)
  {
    hide Filling, NonEmpty, Lines, Join, Packed;
    var lines := Lines(body);
    out := [];
    var buf := "";
    ghost var groups: seq<seq<string>>, held: seq<string> := [], [];
    NothingSplit(signature);
    NothingPacked();
    assert lines[..0] == [];
    for i := 0 to |lines|
      invariant Filling(signature, lines[..i], groups, out, held, buf)
      invariant Packed(groups) && (buf != "" ==> held != []) && Spills(groups, if buf == "" then "" else held[0])
    {
      var line := lines[i];
      assert lines[..i + 1] == lines[..i] + [line];
      if buf != "" && |buf| + |line| + 1 > OVERSIZE_CHAR_THRESHOLD {
        FlushHeld(signature, lines[..i], groups, out, held, buf);
        PackedSnoc(groups, held);
        out, groups := out + [PrefixSig(signature, buf)], groups + [held];
        buf, held := "", [];
      }
      if buf != "" {
        HoldMore(signature, lines[..i], groups, out, held, buf, line);
        buf := buf + "\n";
        held := held + [line];
      } else {
        HoldFirst(signature, lines[..i], groups, out, held, line);
        held := [line];
        assert buf + line == line;
      }
      buf := buf + line;
    }
    assert lines[..|lines|] == lines;
    if buf != "" {
      FlushHeld(signature, lines, groups, out, held, buf);
      PackedSnoc(groups, held);
      out, groups := out + [PrefixSig(signature, buf)], groups + [held];
      held, buf := [], "";
    }
    SplitDone(signature, lines, groups, out, held);
    if out == [] {
      out := [PrefixSig(signature, body)];
    }
    assert LineFragments(body, signature, groups, out);
  }

  // ---------- What stays visible ----------

  /** The characters that are not white space. */
  function Solid(s: string): string {
    if s == "" then ""
    else Solid(s[..|s| - 1]) + if Space(s[|s| - 1]) then "" else [s[|s| - 1]]
  }

  function FlatText(texts: seq<string>): string {
    if texts == [] then "" else FlatText(texts[..|texts| - 1]) + texts[|texts| - 1]
  }

  function TrimStart(s: string): string {
    if s != "" && Space(s[0]) then TrimStart(s[1..]) else s
  }

  function Trim(s: string): string {
    TrimStart(TrimEnd(s))
  }

  lemma {:induction false} SolidConcat(a: string, b: string)
    ensures Solid(a + b) == Solid(a) + Solid(b)
  {
    if b == "" {
      assert a + b == a;
    } else {
      assert (a + b)[..|a + b| - 1] == a + b[..|b| - 1];
      SolidConcat(a, b[..|b| - 1]);
    }
  }

  lemma SolidOne(c: char)
    ensures Solid([c]) == if Space(c) then "" else [c]
  {
    assert [c][..0] == "";
  }

  lemma {:induction false} SolidTrimEnd(s: string)
    ensures Solid(TrimEnd(s)) == Solid(s)
  {
    if s != "" && Space(s[|s| - 1]) {
      SolidTrimEnd(s[..|s| - 1]);
    }
  }

  lemma {:induction false} SolidTrimStart(s: string)
    ensures Solid(TrimStart(s)) == Solid(s)
  {
    if s != "" && Space(s[0]) {
      SolidTrimStart(s[1..]);
      assert s == [s[0]] + s[1..];
      SolidConcat([s[0]], s[1..]);
      SolidOne(s[0]);
    }
  }

  lemma SolidTrim(s: string)
    ensures Solid(Trim(s)) == Solid(s)
  {
    SolidTrimEnd(s);
    SolidTrimStart(TrimEnd(s));
  }

  lemma {:induction false} FlatTextConcat(a: seq<string>, b: seq<string>)
    ensures FlatText(a + b) == FlatText(a) + FlatText(b)
  {
    if b == [] {
      assert a + b == a;
    } else {
      var last := |b| - 1;
      assert (a + b)[..|a + b| - 1] == a + b[..last] && (a + b)[|a + b| - 1] == b[last];
      FlatTextConcat(a, b[..last]);
      assert FlatText(a) + FlatText(b[..last]) + b[last] == FlatText(a) + (FlatText(b[..last]) + b[last]);
    }
  }

  lemma FlatTextOne(text: string)
    ensures FlatText([text]) == text
  {
    assert [text][..0] == [];
  }

  // ---------- Lines keep what is visible ----------

  lemma FlatTextCons(text: string, texts: seq<string>)
    ensures FlatText([text] + texts) == text + FlatText(texts)
  {
    FlatTextConcat([text], texts);
    FlatTextOne(text);
  }

  lemma SolidCons(c: char, s: string)
    ensures Solid([c] + s) == (if Space(c) then "" else [c]) + Solid(s)
  {
    SolidConcat([c], s);
    SolidOne(c);
  }

  lemma {:induction false} SplitSolid(s: string)
    ensures Solid(FlatText(Split(s))) == Solid(s)
  {
    hide Solid, FlatText;
    if s == "" {
      FlatTextOne("");
    } else {
      var c, rest := s[0], Split(s[1..]);
      SplitSolid(s[1..]);
      assert s == [c] + s[1..];
      SolidCons(c, s[1..]);
      if c == '\n' {
        FlatTextCons("", rest);
        assert "" + FlatText(rest) == FlatText(rest);
      } else {
        assert rest == [rest[0]] + rest[1..];
        FlatTextCons(rest[0], rest[1..]);
        FlatTextCons([c] + rest[0], rest[1..]);
        assert [c] + rest[0] + FlatText(rest[1..]) == [c] + (rest[0] + FlatText(rest[1..]));
        SolidCons(c, rest[0] + FlatText(rest[1..]));
      }
    }
  }

  lemma {:induction false} TerminatedSolid(parts: seq<string>)
    ensures Solid(FlatText(TerminatedLines(parts))) == Solid(FlatText(parts))
  {
    if parts != [] {
      var last := |parts| - 1;
      TerminatedSolid(parts[..last]);
      assert TerminatedLines(parts)[..last] == TerminatedLines(parts[..last]);
      SolidConcat(FlatText(TerminatedLines(parts[..last])), StripCr(parts[last]));
      SolidConcat(FlatText(parts[..last]), parts[last]);
    }
  }

  lemma LinesSolid(body: string)
    ensures Solid(FlatText(Lines(body))) == Solid(body)
  {
    var parts := Split(body);
    var last := |parts| - 1;
    SplitSolid(body);
    TerminatedSolid(parts[..last]);
    var ended := TerminatedLines(parts[..last]);
    SolidConcat(FlatText(parts[..last]), parts[last]);
    SolidConcat(FlatText(ended), parts[last]);
    FlatTextConcat(ended, [parts[last]]);
    FlatTextOne(parts[last]);
    assert ended + [] == ended;
  }

  lemma {:induction false} NonEmptyText(lines: seq<string>)
    ensures FlatText(NonEmpty(lines)) == FlatText(lines)
  {
    if lines != [] {
      var last := |lines| - 1;
      NonEmptyText(lines[..last]);
      FlatTextConcat(NonEmpty(lines[..last]), [lines[last]]);
      FlatTextOne(lines[last]);
      if lines[last] == "" {
        assert NonEmpty(lines) == NonEmpty(lines[..last]);
      }
    }
  }

  lemma {:induction false} JoinSolid(lines: seq<string>)
    ensures Solid(Join(lines)) == Solid(FlatText(lines))
  {
    if |lines| > 1 {
      hide Solid, FlatText;
      var rest := lines[1..];
      assert lines == [lines[0]] + rest;
      FlatTextConcat([lines[0]], rest);
      FlatTextOne(lines[0]);
      JoinSolid(rest);
      SolidConcat(lines[0], FlatText(rest));
      SolidConcat(lines[0] + "\n", Join(rest));
      SolidConcat(lines[0], "\n");
      SolidOne('\n');
    } else if |lines| == 1 {
      FlatTextOne(lines[0]);
      assert lines == [lines[0]];
    }
  }

  function Joined(groups: seq<seq<string>>): seq<string> {
    seq(|groups|, k requires 0 <= k < |groups| => Join(groups[k]))
  }

  lemma {:induction false} JoinedSolid(groups: seq<seq<string>>)
    ensures Solid(FlatText(Joined(groups))) == Solid(FlatText(Flat(groups)))
  {
    if groups != [] {
      var last := |groups| - 1;
      JoinedSolid(groups[..last]);
      assert Joined(groups)[..last] == Joined(groups[..last]);
      JoinSolid(groups[last]);
      SolidConcat(FlatText(Joined(groups[..last])), Join(groups[last]));
      FlatTextConcat(Flat(groups[..last]), groups[last]);
      SolidConcat(FlatText(Flat(groups[..last])), FlatText(groups[last]));
    }
  }

  /** What a split by lines puts into its fragments is visibly the body. */
  lemma GroupsSolid(body: string, groups: seq<seq<string>>)
    requires NonEmpty(Flat(groups)) == NonEmpty(Lines(body))
    ensures Solid(FlatText(Joined(groups))) == Solid(body)
  {
    JoinedSolid(groups);
    NonEmptyText(Flat(groups));
    NonEmptyText(Lines(body));
    LinesSolid(body);
  }

  // ---------- The rest behind the last cut ----------

  function StripSig(text: string, signature: string): string {
    if signature <= text then
      var behind := text[|signature|..];
      if behind != "" && behind[0] == '\n' then behind[1..] else behind
    else text
  }

  /** The last fragment with a short rest merged into it. */
  function Merged(signature: string, last: string, rest: string): string {
    PrefixSig(signature, StripSig(last, signature) + rest)
  }

  /** `text` shows `content`, perhaps behind the signature. */
  predicate Shows(signature: string, content: string, text: string) {
    Solid(text) == Solid(content) || Solid(text) == Solid(signature) + Solid(content)
  }

  lemma PrefixShows(signature: string, content: string)
    ensures Shows(signature, content, PrefixSig(signature, content))
  {
    SolidConcat(signature + "\n", content);
    SolidConcat(signature, "\n");
    SolidOne('\n');
  }

  /** The piece starts with the signature, and so does what is left without it. */
  predicate Repeats(signature: string, piece: string, rest: string) {
    signature <= piece && signature <= StripSig(piece, signature) + rest
  }

  lemma StripSolid(signature: string, piece: string)
    requires signature <= piece
    ensures Solid(piece) == Solid(signature) + Solid(StripSig(piece, signature))
  {
    hide Solid;
    var behind := piece[|signature|..];
    assert piece == signature + behind;
    SolidConcat(signature, behind);
    if behind != "" && behind[0] == '\n' {
      assert behind == "\n" + behind[1..];
      SolidConcat("\n", behind[1..]);
      SolidOne('\n');
    }
  }

  lemma StripPrefixed(signature: string, piece: string)
    requires !(signature <= piece)
    ensures StripSig(PrefixSig(signature, piece), signature) == piece
  {
    var text := signature + "\n" + piece;
    assert text[..|signature|] == signature && text[|signature|..] == "\n" + piece;
    assert signature <= text;
    assert ("\n" + piece)[1..] == piece;
  }

  lemma MergeShowsBare(signature: string, piece: string, rest: string)
    requires !(signature <= piece)
    ensures Shows(signature, piece + rest, Merged(signature, PrefixSig(signature, piece), rest))
  {
    hide Solid, StripSig, PrefixSig;
    StripPrefixed(signature, piece);
    PrefixShows(signature, piece + rest);
  }

  lemma PrefixSolid(signature: string, content: string)
    requires !(signature <= content)
    ensures Solid(PrefixSig(signature, content)) == Solid(signature) + Solid(content)
  {
    hide Solid;
    SolidConcat(signature + "\n", content);
    SolidConcat(signature, "\n");
    SolidOne('\n');
  }

  lemma MergeShowsSigned(signature: string, piece: string, rest: string)
    requires signature <= piece
    ensures Shows(signature, piece + rest, Merged(signature, PrefixSig(signature, piece), rest))
      <==> !(signature <= StripSig(piece, signature) + rest && Solid(signature) != "")
  {
    hide Solid, StripSig;
    var bare := StripSig(piece, signature);
    StripSolid(signature, piece);
    SolidConcat(piece, rest);
    SolidConcat(bare, rest);
    assert Solid(piece + rest) == Solid(signature) + Solid(bare + rest);
    if !(signature <= bare + rest) {
      PrefixSolid(signature, bare + rest);
    }
  }

  /** Merging a rest keeps everything visible if and only if the piece does not repeat a visible
      signature: then one of the two is taken for the prefix and lost. */
  lemma MergeShowsIff(signature: string, piece: string, rest: string)
    ensures Shows(signature, piece + rest, Merged(signature, PrefixSig(signature, piece), rest))
      <==> !(Repeats(signature, piece, rest) && Solid(signature) != "")
  {
    hide Shows, Merged, StripSig, PrefixSig, Solid;
    if signature <= piece {
      MergeShowsSigned(signature, piece, rest);
    } else {
      MergeShowsBare(signature, piece, rest);
    }
  }

  // ---------- The whole split ----------

  /** One fragment carries `content`: prefixed, or as a prefixed piece with a rest merged in. */
  ghost predicate Carries(signature: string, content: string, text: string) {
    || text == PrefixSig(signature, content)
    || exists piece, rest :: content == piece + rest && text == Merged(signature, PrefixSig(signature, piece), rest)
  }

  /** The fragments carry contents that together are visibly `whole`. */
  ghost predicate Keeps(signature: string, contents: seq<string>, out: seq<string>, whole: string) {
    && out != [] && |contents| == |out|
    && (forall k | 0 <= k < |out| :: Carries(signature, contents[k], out[k]))
    && Solid(FlatText(contents)) == Solid(whole)
  }

  /** The fragments carry all that is visible of `whole`, in order; what a merge swallows is in
      `MergeShowsIff`. */
  ghost predicate Kept(signature: string, out: seq<string>, whole: string) {
    exists contents :: Keeps(signature, contents, out, whole)
  }

  function Pieces(full: string, pieces: seq<Range>): seq<string> {
    seq(|pieces|, k requires 0 <= k < |pieces| => if pieces[k].start <= pieces[k].end <= |full| then full[pieces[k].start..pieces[k].end] else "")
  }

  lemma {:induction false} PiecesText(full: string, pieces: seq<Range>)
    ensures FlatText(Pieces(full, pieces)) == PieceText(full, pieces)
  {
    if pieces != [] {
      PiecesText(full, pieces[..|pieces| - 1]);
      assert Pieces(full, pieces)[..|pieces| - 1] == Pieces(full, pieces[..|pieces| - 1]);
    }
  }

  lemma LinesKept(body: string, signature: string, groups: seq<seq<string>>, out: seq<string>)
    requires LineFragments(body, signature, groups, out)
    ensures Kept(signature, out, body)
  {
    hide Lines, NonEmpty, PrefixSig, Solid, FlatText, Flat, Packed;
    if groups == [] {
      FlatTextOne(body);
      assert Keeps(signature, [body], out, body);
    } else {
      GroupsSolid(body, groups);
      assert Keeps(signature, Joined(groups), out, body);
    }
  }

  /** Every content with its signature. */
  function Prefixed(signature: string, contents: seq<string>): seq<string> {
    seq(|contents|, k requires 0 <= k < |contents| => PrefixSig(signature, contents[k]))
  }

  method PrefixedPieces(full: string, ends: seq<nat>, base: nat, signature: string)
      returns (out: seq<string>, ghost pieces: seq<Range>, start: nat)
    requires Increasing(ends)
    ensures start <= |full| && Cuts(pieces, start, ends, base, |full|)
    ensures out == Prefixed(signature, Pieces(full, pieces)) && FlatText(Pieces(full, pieces)) == full[..start]
  {
    hide Tiles, PieceText, FlatText, WellCut, WellFilled, Early;
    var cut;
    cut, start := CutAtStatements(ends, base, |full|);
    pieces := cut;
    out := [];
    for k := 0 to |cut|
      invariant out == Prefixed(signature, Pieces(full, cut))[..k]
    {
      out := out + [PrefixSig(signature, Pieces(full, cut)[k])];
    }
    TilesRejoin(full, pieces, start);
    PiecesText(full, pieces);
  }

  /** What the text behind the last cut adds: nothing if it is blank, more of the last fragment if
      that stays within the limit, and otherwise a fragment of its own. */
  function WithTail(signature: string, out: seq<string>, tail: string): seq<string> {
    var rest, last := Trim(tail), |out| - 1;
    if rest == "" then out
    else if out != [] && |out[last]| + |rest| <= OVERSIZE_CHAR_THRESHOLD then out[last := Merged(signature, out[last], rest)]
    else out + [PrefixSig(signature, tail)]
  }

  lemma TailSigned(signature: string, contents: seq<string>, tail: string)
    ensures Signed(signature, WithTail(signature, Prefixed(signature, contents), tail))
  {
    hide StripSig, Trim;
  }

  lemma NoTexts()
    ensures FlatText([]) == ""
    ensures Solid("") == ""
  {
  }

  lemma BlankTail(signature: string, contents: seq<string>, full: string, start: nat)
    requires start <= |full| && FlatText(contents) == full[..start]
    requires Trim(full[start..]) == ""
    ensures if contents == [] then Solid(full) == "" else Keeps(signature, contents, Prefixed(signature, contents), full)
  {
    hide Trim, PrefixSig, Merged, Solid, FlatText;
    NoTexts();
    SolidTrim(full[start..]);
    assert full == full[..start] + full[start..];
    SolidConcat(full[..start], full[start..]);
  }

  lemma MergedContents(contents: seq<string>, rest: string)
    requires contents != []
    ensures FlatText(contents[|contents| - 1 := contents[|contents| - 1] + rest]) == FlatText(contents) + rest
  {
    var last := |contents| - 1;
    assert contents[last := contents[last] + rest][..last] == contents[..last];
  }

  lemma MergedCarries(signature: string, contents: seq<string>, last: nat, rest: string)
    requires last < |contents|
    ensures Carries(signature, contents[last] + rest, Merged(signature, Prefixed(signature, contents)[last], rest))
    ensures forall k | 0 <= k < |contents| :: Carries(signature, contents[k], Prefixed(signature, contents)[k])
  {
    hide PrefixSig, Merged;
  }

  lemma KeepsMerged(signature: string, contents: seq<string>, rest: string, full: string)
    requires contents != []
    requires var out, last := Prefixed(signature, contents), |contents| - 1;
      && Carries(signature, contents[last] + rest, Merged(signature, out[last], rest))
      && (forall k | 0 <= k < |contents| :: Carries(signature, contents[k], out[k]))
      && Solid(FlatText(contents[last := contents[last] + rest])) == Solid(full)
    ensures var out, last := Prefixed(signature, contents), |contents| - 1;
      Keeps(signature, contents[last := contents[last] + rest], out[last := Merged(signature, out[last], rest)], full)
  {
    hide Carries, PrefixSig, Merged, Solid, FlatText;
  }

  lemma MergedTail(signature: string, contents: seq<string>, full: string, start: nat)
    requires start <= |full| && FlatText(contents) == full[..start] && contents != []
    ensures var out, last, rest := Prefixed(signature, contents), |contents| - 1, Trim(full[start..]);
      Keeps(signature, contents[last := contents[last] + rest], out[last := Merged(signature, out[last], rest)], full)
  {
    hide Trim, PrefixSig, Merged, Solid, FlatText, Carries, Keeps;
    var rest := Trim(full[start..]);
    SolidTrim(full[start..]);
    assert full == full[..start] + full[start..];
    SolidConcat(full[..start], full[start..]);
    SolidConcat(full[..start], rest);
    MergedContents(contents, rest);
    MergedCarries(signature, contents, |contents| - 1, rest);
    KeepsMerged(signature, contents, rest, full);
  }

  lemma PushedTail(signature: string, contents: seq<string>, full: string, start: nat)
    requires start <= |full| && FlatText(contents) == full[..start]
    ensures Keeps(signature, contents + [full[start..]], Prefixed(signature, contents) + [PrefixSig(signature, full[start..])], full)
  {
    hide PrefixSig, Merged, Solid, FlatText;
    FlatTextConcat(contents, [full[start..]]);
    FlatTextOne(full[start..]);
    assert full == full[..start] + full[start..];
  }

  /** `out` is cut from `full` at statement ends. */
  ghost predicate StatementFragments(full: string, ends: seq<nat>, base: nat, signature: string, out: seq<string>) {
    exists pieces, start: nat :: Cuts(pieces, start, ends, base, |full|)
      && out == WithTail(signature, Prefixed(signature, Pieces(full, pieces)), full[start..])
  }

  method SplitByStatements(full: string, ends: seq<nat>, base: nat, signature: string)
      returns (out: seq<string>)
    requires Increasing(ends)
    ensures StatementFragments(full, ends, base, signature, out)
    ensures if out == [] then Solid(full) == "" else Kept(signature, out, full)
    ensures Signed(signature, out)
  {
    hide Solid, FlatText, Merged, Trim, Keeps, PrefixSig, Cuts, Signed;
    var start;
    ghost var pieces;
    out, pieces, start := PrefixedPieces(full, ends, base, signature);
    ghost var contents := Pieces(full, pieces);
    var tail := full[start..];
    assert full == full[..start] + tail;
    TailSigned(signature, contents, tail);
    var rest := Trim(tail);
    if rest == "" {
      BlankTail(signature, contents, full, start);
    } else if out != [] && |out[|out| - 1]| + |rest| <= OVERSIZE_CHAR_THRESHOLD {
      MergedTail(signature, contents, full, start);
      var last := |out| - 1;
      out := out[last := Merged(signature, out[last], rest)];
      contents := contents[last := contents[last] + rest];
    } else {
      PushedTail(signature, contents, full, start);
      out := out + [PrefixSig(signature, tail)];
      contents := contents + [tail];
    }
    assert out != [] ==> Keeps(signature, contents, out, full);
  }

  method SplitByLines(body: string, signature: string) returns (out: seq<string>)
    ensures exists groups :: LineFragments(body, signature, groups, out)
    ensures Kept(signature, out, body) && Signed(signature, out)
  {
    hide LineFragments, Kept, Signed;
    out := HardSplit(body, signature);
    ghost var groups :| LineFragments(body, signature, groups, out);
    LinesSigned(body, signature, groups, out);
    LinesKept(body, signature, groups, out);
  }

  /** `body` is what would be embedded whole, `full` the node's own text from which statements
      are cut. */
  method SplitIfOversize(full: string, body: string, ends: seq<nat>, base: nat, signature: string) returns (out: seq<string>)
    requires Increasing(ends)
    ensures |body| <= OVERSIZE_CHAR_THRESHOLD ==> out == [body]
    ensures |body| > OVERSIZE_CHAR_THRESHOLD ==>
      || (ends != [] && StatementFragments(full, ends, base, signature, out) && Kept(signature, out, full))
      || ((ends == [] || (StatementFragments(full, ends, base, signature, []) && Solid(full) == ""))
          && (exists groups :: LineFragments(body, signature, groups, out)) && Kept(signature, out, body))
    ensures |body| > OVERSIZE_CHAR_THRESHOLD ==> Signed(signature, out)
  {
    hide LineFragments, StatementFragments, Kept, Solid, Signed;
    if |body| <= OVERSIZE_CHAR_THRESHOLD {
      return [body];
    }
    if ends == [] {
      out := SplitByLines(body, signature);
      return;
    }
    out := SplitByStatements(full, ends, base, signature);
    if out == [] {
      out := SplitByLines(body, signature);
    }
  }

  // ---------- A loss, with its text ----------

  function Filler(c: char, n: nat): string {
    seq(n, _ => c)
  }

  /** A statement that says the signature twice and has half the limit. */
  function TwiceSigned(): string {
    "f\nf" + Filler('z', OVERSIZE_CHAR_THRESHOLD / 2)
  }

  /** A long statement, one that says its signature twice, and a rest of one character. */
  function LossyText(): string {
    Filler('y', OVERSIZE_CHAR_THRESHOLD) + TwiceSigned() + "x"
  }

  function LossyEnds(): seq<nat> {
    [OVERSIZE_CHAR_THRESHOLD, OVERSIZE_CHAR_THRESHOLD + |TwiceSigned()|]
  }

  lemma LossyCut(a: nat, b: nat)
    requires LossyEnds() == [a, b]
    ensures Cuts([Range(0, a), Range(a, b)], b, LossyEnds(), 0, |LossyText()|)
    ensures Pieces(LossyText(), [Range(0, a), Range(a, b)]) == [Filler('y', a), TwiceSigned()]
    ensures LossyText()[b..] == "x" && |LossyText()| == b + 1
  {
    var pieces, full := [Range(0, a), Range(a, b)], LossyText();
    assert pieces[..1] == [Range(0, a)] && pieces[..1][..0] == [];
    assert full[0..a] == Filler('y', a) && full[a..b] == TwiceSigned();
    assert LossyEnds()[0] == a && LossyEnds()[1] == b;
    assert WellCut(Range(0, a), LossyEnds(), 0) && WellCut(Range(a, b), LossyEnds(), 0);
  }

  lemma TrimOne(c: char)
    requires !Space(c)
    ensures Trim([c]) == [c]
  {
  }

  lemma MergeRepeats(rest: string)
    ensures Repeats("f", TwiceSigned(), rest) && Solid("f") != ""
  {
    var piece := TwiceSigned();
    assert piece[..1] == "f" && piece[1..] == "\nf" + Filler('z', OVERSIZE_CHAR_THRESHOLD / 2);
    assert piece[1..][1..] == "f" + Filler('z', OVERSIZE_CHAR_THRESHOLD / 2);
    assert (StripSig(piece, "f") + rest)[..1] == "f";
    SolidOne('f');
  }

  lemma LastFits()
    ensures "f" <= TwiceSigned() && |TwiceSigned()| + 1 <= OVERSIZE_CHAR_THRESHOLD
  {
    assert TwiceSigned()[..1] == "f";
  }

  /** Split at its statements, and it can be split in no other way, this text loses a visible
      character of its last fragment. */
  lemma MergeLoses(out: seq<string>)
    requires StatementFragments(LossyText(), LossyEnds(), 0, "f", out)
    ensures |LossyText()| > OVERSIZE_CHAR_THRESHOLD && |out| == 2
    ensures !Shows("f", TwiceSigned() + "x", out[1])
  {
    hide Tiles, WellCut, WellFilled, Early, LossyText, TwiceSigned, Shows, Merged, Solid, Trim, Repeats;
    var a, b := LossyEnds()[0], LossyEnds()[1];
    assert LossyEnds() == [a, b];
    LossyCut(a, b);
    var pieces, start: nat :| Cuts(pieces, start, LossyEnds(), 0, |LossyText()|)
      && out == WithTail("f", Prefixed("f", Pieces(LossyText(), pieces)), LossyText()[start..]);
    CutsUnique(pieces, start, [Range(0, a), Range(a, b)], b, LossyEnds(), 0, |LossyText()|);
    TrimOne('x');
    MergeRepeats("x");
    MergeShowsIff("f", TwiceSigned(), "x");
    LastFits();
    assert out[1] == Merged("f", PrefixSig("f", TwiceSigned()), "x");
  }
}
