// The normalization that content hashes are taken over: which differences between two texts it
// forgets, and that it forgets nothing more the second time.

module NormalizeBody {
  import opened Wrappers

  /** White space as the standard library trims it. */
  predicate Space(c: char) {
    var n := c as int;
    || 0x09 <= n <= 0x0D || n == 0x20 || n == 0x85 || n == 0xA0 || n == 0x1680
    || 0x2000 <= n <= 0x200A || n == 0x2028 || n == 0x2029 || n == 0x202F || n == 0x205F || n == 0x3000
  }

  predicate IndentChar(c: char) {
    c == ' ' || c == '\t'
  }

  ghost predicate All(s: string, p: char -> bool) {
    forall i | 0 <= i < |s| :: p(s[i])
  }

  // ---------- Lines ----------

  function ReplaceCrLf(s: string): string {
    if s == "" then ""
    else if |s| >= 2 && s[0] == '\r' && s[1] == '\n' then "\n" + ReplaceCrLf(s[2..])
    else [s[0]] + ReplaceCrLf(s[1..])
  }

  function ReplaceCr(s: string): string {
    seq(|s|, i requires 0 <= i < |s| => if s[i] == '\r' then '\n' else s[i])
  }

  function Split(s: string): (lines: seq<string>)
    ensures lines != []
  {
    if s == "" then [""]
    else
      var rest := Split(s[1..]);
      if s[0] == '\n' then [""] + rest else [[s[0]] + rest[0]] + rest[1..]
  }

  function SplitLines(body: string): (lines: seq<string>)
    ensures lines != []
  {
    Split(ReplaceCr(ReplaceCrLf(body)))
  }

  function TrimEnd(line: string): string {
    if line != "" && Space(line[|line| - 1]) then TrimEnd(line[..|line| - 1]) else line
  }

  function TrimAll(lines: seq<string>): seq<string> {
    seq(|lines|, i requires 0 <= i < |lines| => TrimEnd(lines[i]))
  }

  function DropTail(lines: seq<string>): seq<string> {
    if lines != [] && lines[|lines| - 1] == "" then DropTail(lines[..|lines| - 1]) else lines
  }

  function DropHead(lines: seq<string>): seq<string> {
    if lines != [] && lines[0] == "" then DropHead(lines[1..]) else lines
  }

  function Indent(line: string): (n: nat)
    ensures n <= |line|
  {
    if line != "" && IndentChar(line[0]) then 1 + Indent(line[1..]) else 0
  }

  /** The least indentation of the lines that are not empty. */
  function CommonIndent(lines: seq<string>): Option<nat> {
    if lines == [] then None
    else
      var last := lines[|lines| - 1];
      var earlier := CommonIndent(lines[..|lines| - 1]);
      if last == "" then earlier
      else if earlier.Some? && earlier.value <= Indent(last) then earlier
      else Some(Indent(last))
  }

  function Skip(line: string, n: nat): string {
    if |line| <= n then "" else line[n..]
  }

  function Dedent(lines: seq<string>, n: nat): seq<string> {
    seq(|lines|, i requires 0 <= i < |lines| => Skip(lines[i], n))
  }

  function Join(lines: seq<string>): string {
    if lines == [] then ""
    else if |lines| == 1 then lines[0]
    else lines[0] + "\n" + Join(lines[1..])
  }

  function IndentOf(lines: seq<string>): nat {
    var found := CommonIndent(lines);
    if found.Some? then found.value else 0
  }

  function NormalizedLines(lines: seq<string>): seq<string> {
    var kept := DropHead(DropTail(TrimAll(lines)));
    Dedent(kept, IndentOf(kept))
  }

  function Normalized(body: string): string {
    Join(NormalizedLines(SplitLines(body)))
  }

  method Normalize(body: string) returns (normalized: string)
    ensures normalized == Normalized(body)
  {
    hide SplitLines, TrimEnd;
    var lines := TrimAll(SplitLines(body));
    ghost var trimmed := lines;
    while lines != [] && lines[|lines| - 1] == ""
      invariant DropTail(lines) == DropTail(trimmed)
    {
      lines := lines[..|lines| - 1];
    }
    ghost var tailless := lines;
    while lines != [] && lines[0] == ""
      invariant DropHead(lines) == DropHead(tailless)
    {
      lines := lines[1..];
    }
    ghost var kept := lines;
    if lines == [] {
      return "";
    }
    var indent := IndentOf(lines);
    if indent > 0 {
      for i := 0 to |lines|
        invariant |lines| == |kept|
        invariant forall k | 0 <= k < i :: lines[k] == Skip(kept[k], indent)
        invariant forall k | i <= k < |lines| :: lines[k] == kept[k]
      {
        if lines[i] != "" {
          lines := lines[i := Skip(lines[i], indent)];
        }
      }
    }
    assert lines == Dedent(kept, indent);
    normalized := Join(lines);
  }

  // ---------- Line ends ----------

  datatype LineEnd = Lf | CrLf | Cr

  function EndText(e: LineEnd): string {
    match e
    case Lf => "\n"
    case CrLf => "\r\n"
    case Cr => "\r"
  }

  ghost predicate Plain(line: string) {
    '\n' !in line && '\r' !in line
  }

  /** Lines written out with a line end after each but the last. */
  function Text(lines: seq<string>, ends: seq<LineEnd>): string
    requires lines != [] && |ends| == |lines| - 1
  {
    if |lines| == 1 then lines[0] else lines[0] + EndText(ends[0]) + Text(lines[1..], ends[1..])
  }

  /** A lone CR right before a lone LF would be read as one CRLF. */
  ghost predicate Unambiguous(lines: seq<string>, ends: seq<LineEnd>)
    requires lines != [] && |ends| == |lines| - 1
  {
    forall k | 0 <= k < |ends| - 1 :: !(ends[k].Cr? && lines[k + 1] == "" && ends[k + 1].Lf?)
  }

  lemma {:induction false} ReplacePrefix(line: string, rest: string)
    requires '\r' !in line
    ensures ReplaceCrLf(line + rest) == line + ReplaceCrLf(rest)
  {
    if line == "" {
      assert line + rest == rest;
    } else {
      assert (line + rest)[1..] == line[1..] + rest;
      ReplacePrefix(line[1..], rest);
      assert line == [line[0]] + line[1..];
    }
  }

  lemma CrConcat(a: string, b: string)
    ensures ReplaceCr(a + b) == ReplaceCr(a) + ReplaceCr(b)
  {
  }

  lemma CrPlain(line: string)
    requires '\r' !in line
    ensures ReplaceCr(line) == line
  {
    assert forall i | 0 <= i < |line| :: line[i] in line;
  }

  lemma {:induction false} SplitFirst(line: string, rest: string)
    requires '\n' !in line
    ensures Split(line + "\n" + rest) == [line] + Split(rest)
  {
    if line == "" {
      assert line + "\n" + rest == "\n" + rest;
    } else {
      assert (line + "\n" + rest)[1..] == line[1..] + "\n" + rest;
      SplitFirst(line[1..], rest);
      assert line == [line[0]] + line[1..];
    }
  }

  lemma {:induction false} SplitPlain(line: string)
    requires '\n' !in line
    ensures Split(line) == [line]
  {
    if line != "" {
      SplitPlain(line[1..]);
      assert line == [line[0]] + line[1..];
    }
  }

  /** One line end, and what follows it. */
  lemma EndRead(e: LineEnd, rest: string)
    requires !(e.Cr? && rest != "" && rest[0] == '\n')
    ensures ReplaceCr(ReplaceCrLf(EndText(e) + rest)) == "\n" + ReplaceCr(ReplaceCrLf(rest))
  {
    match e
    case Lf =>
      assert ("\n" + rest)[1..] == rest;
      CrConcat("\n", ReplaceCrLf(rest));
    case CrLf =>
      assert ("\r\n" + rest)[2..] == rest;
      CrConcat("\n", ReplaceCrLf(rest));
    case Cr =>
      assert ("\r" + rest)[1..] == rest;
      CrConcat("\r", ReplaceCrLf(rest));
  }

  lemma SplitStep(line: string, e: LineEnd, rest: string)
    requires Plain(line) && !(e.Cr? && rest != "" && rest[0] == '\n')
    ensures SplitLines(line + EndText(e) + rest) == [line] + SplitLines(rest)
  {
    hide ReplaceCrLf, ReplaceCr, Split, EndText;
    assert line + EndText(e) + rest == line + (EndText(e) + rest);
    ReplacePrefix(line, EndText(e) + rest);
    CrConcat(line, ReplaceCrLf(EndText(e) + rest));
    CrPlain(line);
    EndRead(e, rest);
    var body := ReplaceCr(ReplaceCrLf(rest));
    assert line + ("\n" + body) == line + "\n" + body;
    SplitFirst(line, body);
  }

  lemma TextStart(lines: seq<string>, ends: seq<LineEnd>)
    requires lines != [] && |ends| == |lines| - 1 && Plain(lines[0])
    ensures Text(lines, ends) != "" && Text(lines, ends)[0] == '\n' <==> lines[0] == "" && ends != [] && ends[0].Lf?
  {
    if lines[0] != "" {
      assert lines[0][0] in lines[0];
    }
  }

  lemma PlainLine(line: string)
    requires Plain(line)
    ensures SplitLines(line) == [line]
  {
    ReplacePrefix(line, "");
    assert line + "" == line;
    CrPlain(line);
    SplitPlain(line);
  }

  /** Reading back written lines: every mixture of LF, CRLF and CR gives the same lines, as long
      as no CR and LF happen to touch. */
  lemma {:induction false} LinesReadBack(lines: seq<string>, ends: seq<LineEnd>)
    requires lines != [] && |ends| == |lines| - 1 && forall l | l in lines :: Plain(l)
    requires Unambiguous(lines, ends)
    ensures SplitLines(Text(lines, ends)) == lines
    decreases |lines|
  {
    hide SplitLines, Plain;
    if |lines| == 1 {
      PlainLine(lines[0]);
    } else {
      assert lines[0] in lines && lines[1] in lines;
      forall k | 0 <= k < |ends[1..]| - 1
        ensures !(ends[1..][k].Cr? && lines[1..][k + 1] == "" && ends[1..][k + 1].Lf?)
      {
        assert !(ends[k + 1].Cr? && lines[k + 2] == "" && ends[k + 2].Lf?);
      }
      LinesReadBack(lines[1..], ends[1..]);
      TextStart(lines[1..], ends[1..]);
      assert !(ends[0].Cr? && lines[1] == "" && |ends| > 1 && ends[1].Lf?);
      SplitStep(lines[0], ends[0], Text(lines[1..], ends[1..]));
      assert lines == [lines[0]] + lines[1..];
    }
  }

  lemma TextCons(line: string, lines: seq<string>, e: LineEnd, ends: seq<LineEnd>)
    requires lines != [] && |ends| == |lines| - 1
    ensures Text([line] + lines, [e] + ends) == line + EndText(e) + Text(lines, ends)
  {
    assert ([line] + lines)[1..] == lines && ([e] + ends)[1..] == ends;
  }

  /** Where a lone CR and a lone LF do touch, the text is that of one line less. */
  lemma TouchingEndsMerge(line: string, lines: seq<string>, ends: seq<LineEnd>)
    requires Plain(line) && lines != [] && |ends| == |lines| - 1
    ensures Text([line, ""] + lines, [Cr, Lf] + ends) == Text([line] + lines, [CrLf] + ends)
  {
    hide Text;
    var rest := Text(lines, ends);
    assert [line, ""] + lines == [line] + ([""] + lines) && [Cr, Lf] + ends == [Cr] + ([Lf] + ends);
    TextCons(line, [""] + lines, Cr, [Lf] + ends);
    TextCons("", lines, Lf, ends);
    TextCons(line, lines, CrLf, ends);
    assert line + "\r" + ("" + "\n" + rest) == line + "\r\n" + rest;
  }

  predicate TouchesFirst(lines: seq<string>, ends: seq<LineEnd>)
    requires lines != [] && |ends| == |lines| - 1
  {
    |ends| > 1 && ends[0].Cr? && lines[1] == "" && ends[1].Lf?
  }

  lemma UnambiguousTail(lines: seq<string>, ends: seq<LineEnd>)
    requires |lines| > 1 && |ends| == |lines| - 1 && !TouchesFirst(lines, ends)
    ensures Unambiguous(lines[1..], ends[1..]) ==> Unambiguous(lines, ends)
  {
    if Unambiguous(lines[1..], ends[1..]) {
      forall k | 0 <= k < |ends| - 1
        ensures !(ends[k].Cr? && lines[k + 1] == "" && ends[k + 1].Lf?)
      {
        if k > 0 {
          var l, e := lines[1..], ends[1..];
          assert !(e[k - 1].Cr? && l[k] == "" && e[k].Lf?);
        }
      }
    }
  }

  lemma OneLineUnambiguous(lines: seq<string>, ends: seq<LineEnd>)
    requires |lines| == 1 && |ends| == 0
    ensures Unambiguous(lines, ends)
  {
  }

  lemma {:induction false} LinesReadCount(lines: seq<string>, ends: seq<LineEnd>)
    requires lines != [] && |ends| == |lines| - 1 && forall l | l in lines :: Plain(l)
    ensures |SplitLines(Text(lines, ends))| <= |lines|
    ensures !Unambiguous(lines, ends) ==> |SplitLines(Text(lines, ends))| < |lines|
    decreases |lines|
  {
    hide SplitLines, Plain, Unambiguous, EndText;
    if |lines| == 1 {
      PlainLine(lines[0]);
      OneLineUnambiguous(lines, ends);
    } else if TouchesFirst(lines, ends) {
      assert lines[0] in lines;
      assert lines == [lines[0], ""] + lines[2..] && ends == [Cr, Lf] + ends[2..];
      TouchingEndsMerge(lines[0], lines[2..], ends[2..]);
      assert forall l | l in [lines[0]] + lines[2..] :: l in lines;
      LinesReadCount([lines[0]] + lines[2..], [CrLf] + ends[2..]);
    } else {
      assert lines[0] in lines && lines[1] in lines;
      LinesReadCount(lines[1..], ends[1..]);
      TextStart(lines[1..], ends[1..]);
      SplitStep(lines[0], ends[0], Text(lines[1..], ends[1..]));
      UnambiguousTail(lines, ends);
    }
  }

  /** Written lines are read back as they were if and only if no lone CR touches a lone LF. */
  lemma LinesReadBackIff(lines: seq<string>, ends: seq<LineEnd>)
    requires lines != [] && |ends| == |lines| - 1 && forall l | l in lines :: Plain(l)
    ensures SplitLines(Text(lines, ends)) == lines <==> Unambiguous(lines, ends)
  {
    hide SplitLines, Plain, Unambiguous;
    LinesReadCount(lines, ends);
    if Unambiguous(lines, ends) {
      LinesReadBack(lines, ends);
    }
  }

  // ---------- White space that is forgotten ----------

  lemma {:induction false} TrimTrailing(line: string, trailing: string)
    requires All(trailing, Space)
    ensures TrimEnd(line + trailing) == TrimEnd(line)
  {
    if trailing == "" {
      assert line + trailing == line;
    } else {
      var last := |trailing| - 1;
      assert (line + trailing)[..|line + trailing| - 1] == line + trailing[..last];
      TrimTrailing(line, trailing[..last]);
    }
  }

  lemma {:induction false} TrimPrefix(prefix: string, line: string)
    requires TrimEnd(line) != ""
    ensures TrimEnd(prefix + line) == prefix + TrimEnd(line)
  {
    if line != "" && Space(line[|line| - 1]) {
      assert (prefix + line)[..|prefix + line| - 1] == prefix + line[..|line| - 1];
      TrimPrefix(prefix, line[..|line| - 1]);
    }
  }

  predicate Blank(line: string) {
    forall i | 0 <= i < |line| :: Space(line[i])
  }

  lemma {:induction false} BlankIsTrimmedAway(line: string)
    ensures Blank(line) <==> TrimEnd(line) == ""
  {
    if line != "" && Space(line[|line| - 1]) {
      BlankIsTrimmedAway(line[..|line| - 1]);
      assert Blank(line) <==> Blank(line[..|line| - 1]) by {
        assert forall i | 0 <= i < |line| - 1 :: line[..|line| - 1][i] == line[i];
      }
    }
  }

  /** `after` is `before` with a prefix of `n` spaces or tabs and any trailing white space. */
  ghost predicate Relined(before: string, after: string, n: nat) {
    if Blank(before) then Blank(after)
    else
      exists prefix, trailing ::
        |prefix| == n && All(prefix, IndentChar) && All(trailing, Space) && after == prefix + before + trailing
  }

  /** `after` is `before`, line by line with one indentation more and other trailing white space,
      between any numbers of blank lines. */
  ghost predicate Reformatted(before: seq<string>, above: seq<string>, middle: seq<string>, below: seq<string>, n: nat) {
    && |middle| == |before|
    && (forall k | 0 <= k < |before| :: Relined(before[k], middle[k], n))
    && (forall l | l in above :: Blank(l))
    && (forall l | l in below :: Blank(l))
  }

  ghost predicate ShiftedLine(a: string, b: string, n: nat) {
    if a == "" then b == "" else |b| == n + |a| && b[n..] == a && All(b[..n], IndentChar)
  }

  /** The trimmed lines of a reformatted text against those of the original. */
  ghost predicate Shifted(a: seq<string>, b: seq<string>, n: nat) {
    && |a| == |b|
    && forall k | 0 <= k < |a| :: ShiftedLine(a[k], b[k], n)
  }

  lemma TrimmedShift(before: string, after: string, n: nat)
    requires Relined(before, after, n)
    ensures ShiftedLine(TrimEnd(before), TrimEnd(after), n)
  {
    BlankIsTrimmedAway(before);
    BlankIsTrimmedAway(after);
    if !Blank(before) {
      var prefix, trailing :|
        |prefix| == n && All(prefix, IndentChar) && All(trailing, Space) && after == prefix + before + trailing;
      TrimTrailing(prefix + before, trailing);
      TrimPrefix(prefix, before);
      assert (prefix + TrimEnd(before))[..n] == prefix;
    }
  }

  lemma {:induction false} DropTailShifted(a: seq<string>, b: seq<string>, n: nat)
    requires Shifted(a, b, n)
    ensures Shifted(DropTail(a), DropTail(b), n)
  {
    if a != [] {
      var last := |a| - 1;
      assert ShiftedLine(a[last], b[last], n);
      if a[last] == "" {
        DropTailShifted(a[..last], b[..last], n);
      }
    }
  }

  lemma {:induction false} DropHeadShifted(a: seq<string>, b: seq<string>, n: nat)
    requires Shifted(a, b, n)
    ensures Shifted(DropHead(a), DropHead(b), n)
  {
    if a != [] {
      assert ShiftedLine(a[0], b[0], n);
      if a[0] == "" {
        DropHeadShifted(a[1..], b[1..], n);
      }
    }
  }

  lemma {:induction false} IndentShifted(a: string, b: string, n: nat)
    requires ShiftedLine(a, b, n) && a != ""
    ensures Indent(b) == n + Indent(a)
  {
    if n == 0 {
      assert b == a;
    } else {
      assert b[..n][0] == b[0];
      assert b[1..][n - 1..] == b[n..];
      var tail := b[1..][..n - 1];
      forall i | 0 <= i < |tail|
        ensures IndentChar(tail[i])
      {
        assert b[..n][i + 1] == tail[i];
      }
      IndentShifted(a, b[1..], n - 1);
    }
  }

  lemma {:induction false} CommonIndentShifted(a: seq<string>, b: seq<string>, n: nat)
    requires Shifted(a, b, n)
    ensures CommonIndent(a).None? <==> CommonIndent(b).None?
    ensures CommonIndent(a).Some? ==> CommonIndent(b) == Some(n + CommonIndent(a).value)
  {
    if a != [] {
      var last := |a| - 1;
      assert ShiftedLine(a[last], b[last], n);
      CommonIndentShifted(a[..last], b[..last], n);
      if a[last] != "" {
        IndentShifted(a[last], b[last], n);
      }
    }
  }

  lemma {:induction false} AllEmptyIndent(lines: seq<string>)
    ensures CommonIndent(lines).None? ==> forall k | 0 <= k < |lines| :: lines[k] == ""
  {
    if lines != [] {
      AllEmptyIndent(lines[..|lines| - 1]);
    }
  }

  lemma DedentShifted(a: seq<string>, b: seq<string>, n: nat)
    requires Shifted(a, b, n)
    ensures Dedent(a, IndentOf(a)) == Dedent(b, IndentOf(b))
  {
    CommonIndentShifted(a, b, n);
    AllEmptyIndent(a);
    AllEmptyIndent(b);
    forall k | 0 <= k < |a|
      ensures Skip(a[k], IndentOf(a)) == Skip(b[k], IndentOf(b))
    {
      assert ShiftedLine(a[k], b[k], n);
    }
  }

  lemma {:induction false} DropBelow(lines: seq<string>, below: seq<string>)
    requires forall k | 0 <= k < |below| :: below[k] == ""
    ensures DropTail(lines + below) == DropTail(lines)
  {
    if below == [] {
      assert lines + below == lines;
    } else {
      var last := |below| - 1;
      assert (lines + below)[..|lines + below| - 1] == lines + below[..last];
      DropBelow(lines, below[..last]);
    }
  }

  lemma {:induction false} DropAbove(above: seq<string>, lines: seq<string>)
    requires forall k | 0 <= k < |above| :: above[k] == ""
    ensures DropHead(above + lines) == DropHead(lines)
  {
    if above == [] {
      assert above + lines == lines;
    } else {
      assert (above + lines)[1..] == above[1..] + lines;
      DropAbove(above[1..], lines);
    }
  }

  lemma {:induction false} DropTailUnder(above: seq<string>, lines: seq<string>)
    requires forall k | 0 <= k < |above| :: above[k] == ""
    ensures DropHead(DropTail(above + lines)) == DropHead(DropTail(lines))
  {
    if lines == [] {
      assert above + lines == above;
      DropBelow([], above);
      assert [] + above == above;
    } else {
      var last := |lines| - 1;
      assert (above + lines)[..|above + lines| - 1] == above + lines[..last];
      if lines[last] == "" {
        DropTailUnder(above, lines[..last]);
      } else {
        DropAbove(above, lines);
      }
    }
  }

  /** Normalization forgets a common indentation, trailing white space and outer blank lines. */
  lemma ReformattingForgotten(before: seq<string>, above: seq<string>, middle: seq<string>, below: seq<string>, n: nat)
    requires Reformatted(before, above, middle, below, n)
    ensures NormalizedLines(above + middle + below) == NormalizedLines(before)
  {
    hide DropHead, DropTail, TrimEnd, Dedent;
    var a, b := TrimAll(before), TrimAll(middle);
    forall k | 0 <= k < |a|
      ensures ShiftedLine(a[k], b[k], n)
    {
      TrimmedShift(before[k], middle[k], n);
    }
    DropTailShifted(a, b, n);
    DropHeadShifted(DropTail(a), DropTail(b), n);
    DedentShifted(DropHead(DropTail(a)), DropHead(DropTail(b)), n);
    assert TrimAll(above + middle + below) == TrimAll(above) + b + TrimAll(below);
    forall l | l in above + below
      ensures TrimEnd(l) == ""
    {
      BlankIsTrimmedAway(l);
    }
    assert forall k | 0 <= k < |above| :: above[k] in above + below;
    assert forall k | 0 <= k < |below| :: below[k] in above + below;
    DropBelow(TrimAll(above) + b, TrimAll(below));
    DropTailUnder(TrimAll(above), b);
  }

  /** On texts: any line ends, any outer blank lines, any trailing white space, and any common
      indentation give the same normalized body, hence the same hash. */
  lemma NormalizationForgets(before: seq<string>, ends: seq<LineEnd>,
                             above: seq<string>, middle: seq<string>, below: seq<string>, ends': seq<LineEnd>, n: nat)
    requires before != [] && |ends| == |before| - 1 && Unambiguous(before, ends)
    requires Reformatted(before, above, middle, below, n)
    requires |ends'| == |above + middle + below| - 1 && Unambiguous(above + middle + below, ends')
    requires forall l | l in before :: Plain(l)
    requires forall l | l in above + middle + below :: Plain(l)
    ensures Normalized(Text(above + middle + below, ends')) == Normalized(Text(before, ends))
  {
    hide Plain, Unambiguous, Reformatted, SplitLines, NormalizedLines;
    LinesReadBack(before, ends);
    LinesReadBack(above + middle + below, ends');
    ReformattingForgotten(before, above, middle, below, n);
  }

  // ---------- Normalizing twice ----------

  /** What the lines of a normalized body look like. */
  ghost predicate NormalForm(lines: seq<string>) {
    && (forall l | l in lines :: Plain(l) && TrimEnd(l) == l)
    && (lines != [] ==> lines[0] != "" && lines[|lines| - 1] != "")
    && IndentOf(lines) == 0
  }

  lemma {:induction false} SplitIsPlain(s: string)
    requires '\r' !in s
    ensures forall l | l in Split(s) :: Plain(l)
  {
    if s != "" {
      assert forall c | c in s[1..] :: c in s;
      SplitIsPlain(s[1..]);
      assert s[0] in s;
      var rest := Split(s[1..]);
      assert rest[0] in rest && forall l | l in rest[1..] :: l in rest;
    }
  }

  lemma NoCrLeft(s: string)
    ensures '\r' !in ReplaceCr(s)
  {
  }

  lemma {:induction false} TrimEndMeaning(line: string)
    ensures TrimEnd(line) <= line
    ensures TrimEnd(line) != "" ==> !Space(TrimEnd(line)[|TrimEnd(line)| - 1])
  {
    if line != "" && Space(line[|line| - 1]) {
      TrimEndMeaning(line[..|line| - 1]);
    }
  }

  lemma Trimmed(line: string)
    ensures line == "" || !Space(line[|line| - 1]) ==> TrimEnd(line) == line
  {
  }

  lemma {:induction false} DropTailMeaning(lines: seq<string>)
    ensures DropTail(lines) <= lines
    ensures DropTail(lines) != [] ==> DropTail(lines)[|DropTail(lines)| - 1] != ""
  {
    if lines != [] && lines[|lines| - 1] == "" {
      DropTailMeaning(lines[..|lines| - 1]);
    }
  }

  lemma {:induction false} DropHeadMeaning(lines: seq<string>)
    requires lines != [] ==> lines[|lines| - 1] != ""
    ensures forall l | l in DropHead(lines) :: l in lines
    ensures DropHead(lines) != [] ==> DropHead(lines)[0] != "" && DropHead(lines)[|DropHead(lines)| - 1] != ""
  {
    if lines != [] && lines[0] == "" {
      DropHeadMeaning(lines[1..]);
    }
  }

  lemma {:induction false} IndentShort(line: string)
    requires line != "" && !Space(line[|line| - 1])
    ensures Indent(line) < |line|
  {
    if IndentChar(line[0]) {
      assert |line| > 1;
      assert line[1..][|line| - 2] == line[|line| - 1];
      IndentShort(line[1..]);
    }
  }

  lemma {:induction false} CommonIndentBound(lines: seq<string>, k: nat)
    requires k < |lines| && lines[k] != ""
    ensures CommonIndent(lines).Some? && CommonIndent(lines).value <= Indent(lines[k])
  {
    var last := |lines| - 1;
    if k < last {
      CommonIndentBound(lines[..last], k);
    }
  }

  lemma {:induction false} CommonIndentReached(lines: seq<string>) returns (k: nat)
    requires CommonIndent(lines).Some?
    ensures k < |lines| && lines[k] != "" && Indent(lines[k]) == CommonIndent(lines).value
  {
    var last := |lines| - 1;
    var earlier := CommonIndent(lines[..last]);
    if lines[last] == "" || (earlier.Some? && earlier.value <= Indent(lines[last])) {
      k := CommonIndentReached(lines[..last]);
    } else {
      k := last;
    }
  }

  lemma {:induction false} SkipIndent(line: string, n: nat)
    requires n <= Indent(line)
    ensures Indent(line[n..]) == Indent(line) - n
  {
    if n > 0 {
      SkipIndent(line[1..], n - 1);
      assert line[1..][n - 1..] == line[n..];
    } else {
      assert line[0..] == line;
    }
  }

  /** Lines that are plain, trimmed, and not blank at either end. */
  ghost predicate Framed(lines: seq<string>) {
    && (forall l | l in lines :: Plain(l) && (l == "" || !Space(l[|l| - 1])))
    && (lines != [] ==> lines[0] != "" && lines[|lines| - 1] != "")
  }

  lemma KeptIsFramed(lines: seq<string>)
    requires forall l | l in lines :: Plain(l)
    ensures Framed(DropHead(DropTail(TrimAll(lines))))
  {
    hide DropHead, DropTail, TrimEnd;
    var t := TrimAll(lines);
    forall l | l in t
      ensures Plain(l) && (l == "" || !Space(l[|l| - 1]))
    {
      var k :| 0 <= k < |t| && t[k] == l;
      assert lines[k] in lines;
      TrimEndMeaning(lines[k]);
      assert forall c | c in l :: c in lines[k];
    }
    DropTailMeaning(t);
    assert forall l | l in DropTail(t) :: l in t;
    DropHeadMeaning(DropTail(t));
  }

  lemma DedentLine(line: string, n: nat)
    requires Plain(line) && (line == "" || (!Space(line[|line| - 1]) && n <= Indent(line)))
    ensures Plain(Skip(line, n)) && TrimEnd(Skip(line, n)) == Skip(line, n)
    ensures Skip(line, n) == "" <==> line == ""
    ensures line != "" ==> Indent(Skip(line, n)) == Indent(line) - n
  {
    hide Indent, Space;
    if line != "" {
      IndentShort(line);
      SkipIndent(line, n);
      assert line[n..][|line| - n - 1] == line[|line| - 1];
      assert forall c | c in line[n..] :: c in line;
      Trimmed(line[n..]);
    }
  }

  lemma DedentNormal(lines: seq<string>)
    requires Framed(lines)
    ensures NormalForm(Dedent(lines, IndentOf(lines)))
  {
    hide Plain, TrimEnd, Skip;
    var n := IndentOf(lines);
    var d := Dedent(lines, n);
    forall k | 0 <= k < |lines|
      ensures Plain(d[k]) && TrimEnd(d[k]) == d[k]
      ensures d[k] == "" <==> lines[k] == ""
      ensures lines[k] != "" ==> n <= Indent(lines[k]) && Indent(d[k]) == Indent(lines[k]) - n
    {
      assert lines[k] in lines;
      if lines[k] != "" {
        CommonIndentBound(lines, k);
      }
      DedentLine(lines[k], n);
    }
    if lines != [] {
      CommonIndentBound(lines, 0);
      var k := CommonIndentReached(lines);
      CommonIndentBound(d, k);
    }
  }

  lemma DedentNothing(lines: seq<string>)
    ensures Dedent(lines, 0) == lines
  {
  }

  lemma NormalFormFixed(lines: seq<string>)
    requires NormalForm(lines)
    ensures NormalizedLines(lines) == lines
  {
    assert TrimAll(lines) == lines by {
      forall k | 0 <= k < |lines|
        ensures TrimEnd(lines[k]) == lines[k]
      {
        assert lines[k] in lines;
      }
    }
    DedentNothing(lines);
  }

  lemma {:induction false} JoinIsText(lines: seq<string>)
    requires lines != []
    ensures Join(lines) == Text(lines, seq(|lines| - 1, _ => Lf))
    decreases |lines|
  {
    if |lines| > 1 {
      JoinIsText(lines[1..]);
      assert seq(|lines| - 1, _ => Lf)[1..] == seq(|lines| - 2, _ => Lf);
    }
  }

  lemma BodyLinesPlain(body: string)
    ensures forall l | l in SplitLines(body) :: Plain(l)
  {
    NoCrLeft(ReplaceCrLf(body));
    SplitIsPlain(ReplaceCr(ReplaceCrLf(body)));
  }

  lemma EmptyBody()
    ensures Normalized("") == ""
  {
    assert SplitLines("") == [""];
    assert TrimAll([""]) == [""];
    assert [""][..0] == [];
  }

  /** Normalizing a normalized body changes nothing. */
  lemma NormalizationIdempotent(body: string)
    ensures Normalized(Normalized(body)) == Normalized(body)
  {
    hide SplitLines, DropHead, DropTail, TrimAll, Dedent, Framed, Plain;
    BodyLinesPlain(body);
    var lines := NormalizedLines(SplitLines(body));
    KeptIsFramed(SplitLines(body));
    DedentNormal(DropHead(DropTail(TrimAll(SplitLines(body)))));
    if lines == [] {
      EmptyBody();
    } else {
      JoinIsText(lines);
      LinesReadBack(lines, seq(|lines| - 1, _ => Lf));
      NormalFormFixed(lines);
    }
  }

  // ---------- What the normal form keeps ----------

  /** `lines` are the lines of `core`, each with the same number of spaces or tabs in front of it
      and white space behind it, between blank lines. */
  ghost predicate Reformats(core: seq<string>, lines: seq<string>) {
    exists above, middle, below, n :: lines == above + middle + below && Reformatted(core, above, middle, below, n)
  }

  lemma {:induction false} TrimmedOff(line: string) returns (trailing: string)
    ensures line == TrimEnd(line) + trailing && All(trailing, Space)
  {
    if line != "" && Space(line[|line| - 1]) {
      var last := |line| - 1;
      var earlier := TrimmedOff(line[..last]);
      trailing := earlier + [line[last]];
      assert line == line[..last] + [line[last]];
    } else {
      trailing := "";
    }
  }

  lemma {:induction false} IndentIsWhite(line: string, n: nat)
    requires n <= Indent(line)
    ensures All(line[..n], IndentChar)
  {
    if n > 0 {
      IndentIsWhite(line[1..], n - 1);
      forall i | 0 <= i < n
        ensures IndentChar(line[..n][i])
      {
        assert i > 0 ==> line[1..][..n - 1][i - 1] == line[i];
      }
    }
  }

  lemma {:induction false} TailDropped(lines: seq<string>) returns (below: seq<string>)
    ensures lines == DropTail(lines) + below && forall l | l in below :: l == ""
  {
    if lines != [] && lines[|lines| - 1] == "" {
      var last := |lines| - 1;
      var earlier := TailDropped(lines[..last]);
      below := earlier + [lines[last]];
      assert lines == lines[..last] + [lines[last]];
    } else {
      below := [];
    }
  }

  lemma {:induction false} HeadDropped(lines: seq<string>) returns (above: seq<string>)
    ensures lines == above + DropHead(lines) && forall l | l in above :: l == ""
  {
    if lines != [] && lines[0] == "" {
      var later := HeadDropped(lines[1..]);
      above := [lines[0]] + later;
      assert lines == [lines[0]] + lines[1..];
    } else {
      above := [];
    }
  }

  lemma LineKept(line: string, n: nat)
    requires TrimEnd(line) != "" ==> n <= Indent(TrimEnd(line))
    ensures Relined(Skip(TrimEnd(line), n), line, n)
  {
    hide Indent;
    var t := TrimEnd(line);
    BlankIsTrimmedAway(line);
    if t != "" {
      TrimEndMeaning(line);
      IndentShort(t);
      IndentIsWhite(t, n);
      var trailing := TrimmedOff(line);
      assert t == t[..n] + t[n..];
      assert !Space(t[n..][|t| - n - 1]);
      assert |t[..n]| == n && line == t[..n] + Skip(t, n) + trailing;
    }
  }

  lemma NormalFormKeeps(lines: seq<string>)
    ensures Reformats(NormalizedLines(lines), lines)
  {
    hide DropHead, DropTail, TrimEnd, Relined, Blank, CommonIndent, Indent;
    var t := TrimAll(lines);
    var tail := TailDropped(t);
    var head := HeadDropped(DropTail(t));
    var kept := DropHead(DropTail(t));
    var h, k := |head|, |head| + |kept|;
    assert t == head + kept + tail;
    var above, middle, below := lines[..h], lines[h..k], lines[k..];
    forall i | 0 <= i < |lines| && !(h <= i < k)
      ensures Blank(lines[i])
    {
      BlankIsTrimmedAway(lines[i]);
      if i < h {
        assert t[i] == head[i] && head[i] in head;
      } else {
        assert t[i] == tail[i - k] && tail[i - k] in tail;
      }
    }
    forall i | 0 <= i < |middle|
      ensures Relined(NormalizedLines(lines)[i], middle[i], IndentOf(kept))
    {
      assert t[h + i] == kept[i] && middle[i] == lines[h + i];
      if kept[i] != "" {
        CommonIndentBound(kept, i);
      }
      LineKept(middle[i], IndentOf(kept));
    }
    assert lines == above + middle + below;
    assert Reformatted(NormalizedLines(lines), above, middle, below, IndentOf(kept));
  }

  /** The lines of a normalized body are trimmed, plain and not blank at either end, one of them
      is not indented, and the body is a reformatting of them: every inner line, every relative
      indentation and everything visible is kept. */
  lemma NormalizedKeeps(body: string) returns (core: seq<string>)
    ensures NormalForm(core) && Reformats(core, SplitLines(body))
    ensures if core == [] then Normalized(body) == "" else SplitLines(Normalized(body)) == core
  {
    hide SplitLines, DropHead, DropTail, TrimAll, Dedent, Framed, Plain, Reformats;
    BodyLinesPlain(body);
    core := NormalizedLines(SplitLines(body));
    KeptIsFramed(SplitLines(body));
    DedentNormal(DropHead(DropTail(TrimAll(SplitLines(body)))));
    NormalFormKeeps(SplitLines(body));
    if core != [] {
      JoinIsText(core);
      LinesReadBack(core, seq(|core| - 1, _ => Lf));
    }
  }

  lemma ReformatsAlike(core: seq<string>, lines: seq<string>)
    requires Reformats(core, lines)
    ensures NormalizedLines(lines) == NormalizedLines(core)
  {
    hide Reformatted, NormalizedLines;
    var above, middle, below, n :| lines == above + middle + below && Reformatted(core, above, middle, below, n);
    ReformattingForgotten(core, above, middle, below, n);
  }

  lemma SameLinesSameBody(a: string, b: string)
    requires NormalizedLines(SplitLines(a)) == NormalizedLines(SplitLines(b))
    ensures Normalized(a) == Normalized(b)
  {
  }

  lemma NonemptyNormal(lines: seq<string>)
    requires NormalForm(lines)
    ensures lines != [] ==> lines != SplitLines("")
  {
    PlainLine("");
  }

  /** Two bodies normalize alike, and so have the same content hash, if and only if both are
      reformattings of the same lines. */
  lemma NormalizeAlikeIff(a: string, b: string)
    ensures Normalized(a) == Normalized(b) <==> exists core :: Reformats(core, SplitLines(a)) && Reformats(core, SplitLines(b))
  {
    hide SplitLines, NormalizedLines, Reformats, NormalForm, Normalized;
    if Normalized(a) == Normalized(b) {
      var coreA := NormalizedKeeps(a);
      var coreB := NormalizedKeeps(b);
      NonemptyNormal(coreA);
      NonemptyNormal(coreB);
      assert coreA == coreB;
    }
    if core :| Reformats(core, SplitLines(a)) && Reformats(core, SplitLines(b)) {
      ReformatsAlike(core, SplitLines(a));
      ReformatsAlike(core, SplitLines(b));
      SameLinesSameBody(a, b);
    }
  }
}
