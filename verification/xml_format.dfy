/**
 * `formatXml`, the editor's line-based pretty-printer: put a line break between every
 * adjacent `>` and `<`, split at the line breaks, and indent each line by two spaces
 * per level of a counter that tracks opening and closing tags.
 */
module XmlFormat {

  const Crlf: string := "\r\n"

  /** No `>` in the text is immediately followed by `<`. */
  predicate NoTagBoundary(s: string) {
    forall i :: 0 <= i < |s| - 1 ==> !(s[i] == '>' && s[i + 1] == '<')
  }

  /** The number of adjacent `>` `<` pairs. */
  function TagBoundaries(s: string): nat
    decreases |s|
  {
    if |s| < 2 then 0
    else (if s[0] == '>' && s[1] == '<' then 1 else 0) + TagBoundaries(s[1..])
  }

  /**
   * The global replacement that matches `>`, `<` and any run of slashes after them and writes
   * them back with `\r\n` after the `>`: a line break goes between every adjacent `>` `<`
   * pair and everything else is kept. The captured `<` and slashes are written back
   * unchanged, so scanning on from the `<` has the same effect.
   */
  function Expand(s: string): (r: string)
    ensures |s| > 0 ==> |r| > 0 && r[0] == s[0]
    decreases |s|
  {
    if |s| < 2 then s
    else if s[0] == '>' && s[1] == '<' then ">" + Crlf + Expand(s[1..])
    else [s[0]] + Expand(s[1..])
  }

  /** The line break inserted where `a` meets `b`: one when `a` ends in `>` and `b` starts with `<`. */
  function Seam(a: string, b: string): string {
    if a != [] && b != [] && a[|a| - 1] == '>' && b[0] == '<' then Crlf else ""
  }

  /** After expanding, no `>` is immediately followed by `<`. */
  lemma {:induction false} ExpandLeavesNoBoundary(s: string)
    ensures NoTagBoundary(Expand(s))
    decreases |s|
  {
    if |s| >= 2 {
      var r := Expand(s);
      var t := Expand(s[1..]);
      ExpandLeavesNoBoundary(s[1..]);
      if s[0] == '>' && s[1] == '<' {
        assert r == ">" + Crlf + t;
        forall i | 0 <= i < |r| - 1
          ensures !(r[i] == '>' && r[i + 1] == '<')
        {
          if i >= 3 {
            assert r[i] == t[i - 3] && r[i + 1] == t[i - 2];
          }
        }
      } else {
        assert r == [s[0]] + t;
        forall i | 0 <= i < |r| - 1
          ensures !(r[i] == '>' && r[i + 1] == '<')
        {
          if i >= 1 {
            assert r[i] == t[i - 1] && r[i + 1] == t[i];
          }
        }
      }
    }
  }

  /** Expanding adds exactly one two-character break per `>` `<` pair. */
  lemma {:induction false} ExpandLength(s: string)
    ensures |Expand(s)| == |s| + 2 * TagBoundaries(s)
    decreases |s|
  {
    if |s| >= 2 {
      ExpandLength(s[1..]);
    }
  }

  /** What expanding puts out for the character `c` when `t` follows it. */
  function Head(c: char, t: string): string {
    if c == '>' && t != [] && t[0] == '<' then ">" + Crlf else [c]
  }

  lemma ExpandCons(c: char, t: string)
    ensures Expand([c] + t) == Head(c, t) + Expand(t)
  {
    if t != [] {
      assert ([c] + t)[1..] == t;
    }
  }

  /** Expanding a concatenation expands both parts and breaks the seam exactly when it is a `>` `<` pair. */
  lemma {:induction false} ExpandAppend(a: string, b: string)
    ensures Expand(a + b) == Expand(a) + Seam(a, b) + Expand(b)
    decreases |a|
  {
    if a == [] {
      assert a + b == b;
    } else if a[1..] == [] {
      assert a == [a[0]] && a + b == [a[0]] + b;
      ExpandCons(a[0], b);
      assert Head(a[0], b) == Expand(a) + Seam(a, b);
    } else {
      var c, a' := a[0], a[1..];
      assert a == [c] + a' && a + b == [c] + (a' + b);
      calc {
        Expand(a + b);
      == { ExpandCons(c, a' + b); }
        Head(c, a' + b) + Expand(a' + b);
      == { ExpandAppend(a', b); }
        Head(c, a' + b) + (Expand(a') + Seam(a', b) + Expand(b));
      == { assert Head(c, a' + b) == Head(c, a'); assert Seam(a', b) == Seam(a, b); }
        (Head(c, a') + Expand(a')) + Seam(a, b) + Expand(b);
      == { ExpandCons(c, a'); }
        Expand(a) + Seam(a, b) + Expand(b);
      }
    }
  }

  /** Text without a `>` `<` pair is left unchanged. */
  lemma {:induction false} ExpandWithoutBoundary(s: string)
    requires NoTagBoundary(s)
    ensures Expand(s) == s
    decreases |s|
  {
    if |s| >= 2 {
      assert !(s[0] == '>' && s[1] == '<');
      ExpandWithoutBoundary(s[1..]);
    }
  }

  /** The text contains no `\r\n`. */
  predicate NoCrlf(s: string) {
    forall i :: 0 <= i < |s| - 1 ==> !(s[i] == '\r' && s[i + 1] == '\n')
  }

  lemma PrependKeepsNoCrlf(c: char, x: string)
    requires NoCrlf(x) && (c == '\r' && x != [] ==> x[0] != '\n')
    ensures NoCrlf([c] + x)
  {
    var y := [c] + x;
    forall i | 0 <= i < |y| - 1
      ensures !(y[i] == '\r' && y[i + 1] == '\n')
    {
      if i > 0 {
        assert y[i] == x[i - 1] && y[i + 1] == x[i];
      }
    }
  }

  /** `s.split('\r\n')`: the pieces between the line breaks, at least one. */
  function SplitLines(s: string): (r: seq<string>)
    ensures |r| >= 1 && r[0] <= s
    ensures forall l :: l in r ==> NoCrlf(l)
    decreases |s|
  {
    if s == [] then [[]]
    else if |s| >= 2 && s[0] == '\r' && s[1] == '\n' then [[]] + SplitLines(s[2..])
    else
      var rest := SplitLines(s[1..]);
      assert forall l :: l in rest[1..] ==> l in rest;
      assert rest[0] in rest;
      assert rest[0] != [] ==> rest[0][0] == s[1];
      PrependKeepsNoCrlf(s[0], rest[0]);
      [[s[0]] + rest[0]] + rest[1..]
  }

  /** `lines.join('\r\n')`. */
  function JoinLines(lines: seq<string>): string {
    if lines == [] then []
    else if |lines| == 1 then lines[0]
    else lines[0] + Crlf + JoinLines(lines[1..])
  }

  /** A join of two or more pieces is its first piece, a break, and the join of the rest. */
  lemma JoinUnfold(ls: seq<string>)
    requires |ls| > 1
    ensures JoinLines(ls) == ls[0] + Crlf + JoinLines(ls[1..])
  {
  }

  lemma SeqAssoc3(a: string, b: string, c: string, d: string)
    ensures (a + b) + c + d == a + (b + c + d)
  {
  }

  lemma JoinConsCharMany(c: char, rest: seq<string>)
    requires |rest| > 1
    ensures JoinLines([[c] + rest[0]] + rest[1..]) == [c] + JoinLines(rest)
  {
    var ls := [[c] + rest[0]] + rest[1..];
    var tail := JoinLines(rest[1..]);
    calc {
      JoinLines(ls);
    == { JoinUnfold(ls); assert ls[1..] == rest[1..]; }
      ls[0] + Crlf + tail;
    == { assert ls[0] == [c] + rest[0]; }
      ([c] + rest[0]) + Crlf + tail;
    == { SeqAssoc3([c], rest[0], Crlf, tail); }
      [c] + (rest[0] + Crlf + tail);
    == { JoinUnfold(rest); }
      [c] + JoinLines(rest);
    }
  }

  /** Putting a character in front of the first piece puts it in front of the join. */
  lemma JoinConsChar(c: char, rest: seq<string>)
    requires |rest| >= 1
    ensures JoinLines([[c] + rest[0]] + rest[1..]) == [c] + JoinLines(rest)
  {
    if |rest| == 1 {
      assert [[c] + rest[0]] + rest[1..] == [[c] + rest[0]];
    } else {
      JoinConsCharMany(c, rest);
    }
  }

  /** Joining the pieces again gives back the text. */
  lemma {:induction false} JoinSplit(s: string)
    ensures JoinLines(SplitLines(s)) == s
    decreases |s|
  {
    if s == [] {
    } else if |s| >= 2 && s[0] == '\r' && s[1] == '\n' {
      JoinSplit(s[2..]);
      var ls := [[]] + SplitLines(s[2..]);
      assert ls[1..] == SplitLines(s[2..]);
      assert s == Crlf + s[2..];
    } else {
      JoinSplit(s[1..]);
      JoinConsChar(s[0], SplitLines(s[1..]));
    }
  }

  /** A piece followed by a break: the piece comes out first. */
  lemma {:induction false} SplitAfterPiece(a: string, b: string)
    requires NoCrlf(a)
    ensures SplitLines(a + Crlf + b) == [a] + SplitLines(b)
    decreases |a|
  {
    var s := a + Crlf + b;
    if a == [] {
      assert s == Crlf + b && s[2..] == b;
    } else {
      assert s[1..] == a[1..] + Crlf + b;
      assert !(s[0] == '\r' && s[1] == '\n') by {
        if |a| > 1 {
          assert s[1] == a[1];
        } else {
          assert s[1] == '\r';
        }
      }
      SplitAfterPiece(a[1..], b);
      assert [a[0]] + a[1..] == a;
    }
  }

  /** A text without breaks is a single piece. */
  lemma {:induction false} SplitSinglePiece(a: string)
    requires NoCrlf(a)
    ensures SplitLines(a) == [a]
    decreases |a|
  {
    if a != [] {
      assert !(|a| >= 2 && a[0] == '\r' && a[1] == '\n');
      SplitSinglePiece(a[1..]);
      assert [a[0]] + a[1..] == a;
    }
  }

  /** Splitting a join of break-free pieces gives back the pieces. */
  lemma {:induction false} SplitJoin(lines: seq<string>)
    requires |lines| >= 1 && forall l :: l in lines ==> NoCrlf(l)
    ensures SplitLines(JoinLines(lines)) == lines
    decreases |lines|
  {
    if |lines| == 1 {
      SplitSinglePiece(lines[0]);
    } else {
      assert lines[0] in lines;
      assert forall l :: l in lines[1..] ==> l in lines;
      SplitJoin(lines[1..]);
      SplitAfterPiece(lines[0], JoinLines(lines[1..]));
    }
  }

  // ---------------------------------------------------------------------------
  // The three line classifiers

  /** `\w`: an ASCII letter, digit or underscore. */
  predicate IsWordChar(c: char) {
    ('a' <= c <= 'z') || ('A' <= c <= 'Z') || ('0' <= c <= '9') || c == '_'
  }

  /** The characters `.` does not match. */
  predicate IsLineTerminator(c: char) {
    c == '\n' || c == '\r' || c == '\U{2028}' || c == '\U{2029}'
  }

  /** From `p` on, the line is a closing tag `</w...>` that ends the line. */
  predicate ClosingTagEndsAt(node: string, p: nat)
    requires p + 4 <= |node|
  {
    && node[p] == '<' && node[p + 1] == '/' && IsWordChar(node[p + 2])
    && node[|node| - 1] == '>'
    && forall m :: p + 3 <= m < |node| - 1 ==> node[m] != '>'
  }

  /** `/.+<\/\w[^>]*>$/`: something, then a closing tag that ends the line (`<b>x</b>`). */
  predicate EndsWithClosingTag(node: string) {
    exists p :: 1 <= p && p + 4 <= |node| && !IsLineTerminator(node[p - 1]) && ClosingTagEndsAt(node, p)
  }

  /** `/^<\/\w/`: the line starts with a closing tag. */
  predicate StartsWithClosingTag(node: string) {
    |node| >= 3 && node[0] == '<' && node[1] == '/' && IsWordChar(node[2])
  }

  /** The opening tag's head ends with `>` at `k + 1`, preceded by a character other than `/`. */
  predicate OpeningTagClosesAt(node: string, k: nat)
    requires 2 <= k && k + 1 < |node|
  {
    && (forall m :: 2 <= m < k ==> node[m] != '>')
    && node[k] != '/' && node[k + 1] == '>'
    && forall m :: k + 2 <= m < |node| ==> !IsLineTerminator(node[m])
  }

  /** `/^<\w[^>]*[^/]>.*$/`: the line starts with an opening tag that is not self-closing. */
  predicate IsOpeningTag(node: string) {
    |node| >= 4 && node[0] == '<' && IsWordChar(node[1])
    && exists k :: 2 <= k && k + 1 < |node| && OpeningTagClosesAt(node, k)
  }

  /** How the three classifiers sort typical lines of broken-up markup. */
  lemma ClassifierExamples()
    ensures EndsWithClosingTag("<b>x</b>") && !EndsWithClosingTag("</b>") && !EndsWithClosingTag("<b>")
    ensures StartsWithClosingTag("</b>") && !StartsWithClosingTag("<b>") && !StartsWithClosingTag("</>")
    ensures IsOpeningTag("<ab>") && IsOpeningTag("<ab>x</ab>") && !IsOpeningTag("<c/>") && !IsOpeningTag("</ab>")
    ensures !IsOpeningTag("<b>") && !IsOpeningTag("<b>x</b>")
  {
    assert ClosingTagEndsAt("<b>x</b>", 4);
    assert !IsLineTerminator("<b>x</b>"[3]);
    assert OpeningTagClosesAt("<ab>", 2);
    assert OpeningTagClosesAt("<ab>x</ab>", 2);
    assert !IsOpeningTag("<b>x</b>") by {
      forall k | 2 <= k && k + 1 < |"<b>x</b>"| ensures !OpeningTagClosesAt("<b>x</b>", k) {
        assert k == 2 || "<b>x</b>"[2] == '>';
      }
    }
    assert !IsOpeningTag("<c/>") by {
      forall k | 2 <= k && k + 1 < |"<c/>"| ensures !OpeningTagClosesAt("<c/>", k) {
        assert k == 2;
      }
    }
  }

  // ---------------------------------------------------------------------------
  // The indentation counter

  /** The counter after a line, and the depth that line is indented to. */
  datatype LineStep = LineStep(pad: nat, depth: nat)

  /**
   * The body of the `map` callback: a line ending in a closing tag keeps the counter, a
   * line starting with a closing tag decrements it when it is positive, an opening tag
   * increments it after its own line, and anything else keeps it.
   */
  function StepPad(node: string, pad: nat): (s: LineStep)
    ensures s.depth <= pad && s.depth <= s.pad <= s.depth + 1
    ensures s.pad == s.depth + 1 <==> s.pad == pad + 1
    ensures s.pad < pad ==> StartsWithClosingTag(node) && s.pad + 1 == pad
    ensures s.pad > pad ==> IsOpeningTag(node)
    ensures EndsWithClosingTag(node) ==> s == LineStep(pad, pad)
    ensures !EndsWithClosingTag(node) && IsOpeningTag(node) ==> s == LineStep(pad + 1, pad)
    ensures !EndsWithClosingTag(node) && StartsWithClosingTag(node) && pad > 0 ==> s == LineStep(pad - 1, pad - 1)
    ensures !EndsWithClosingTag(node) && !IsOpeningTag(node) && !(StartsWithClosingTag(node) && pad > 0) ==>
              s == LineStep(pad, pad)
    ensures !(StartsWithClosingTag(node) && IsOpeningTag(node))
  {
    if EndsWithClosingTag(node) then LineStep(pad, pad)
    else if StartsWithClosingTag(node) && pad > 0 then LineStep(pad - 1, pad - 1)
    else if IsOpeningTag(node) then LineStep(pad + 1, pad)
    else LineStep(pad, pad)
  }

  /** `n` spaces. */
  function Spaces(n: nat): (r: string)
    ensures |r| == n && forall i :: 0 <= i < n ==> r[i] == ' '
  {
    if n == 0 then [] else [' '] + Spaces(n - 1)
  }

  /** `line` is `segment` behind an even run of spaces. */
  predicate IsIndented(line: string, segment: string) {
    |segment| <= |line| && (|line| - |segment|) % 2 == 0
    && line == Spaces(|line| - |segment|) + segment
  }

  /** The number of lines that open a tag. */
  function OpeningCount(lines: seq<string>): nat {
    if lines == [] then 0 else (if IsOpeningTag(lines[0]) then 1 else 0) + OpeningCount(lines[1..])
  }

  lemma SpacesThenLine(n: nat, line: string)
    ensures IsIndented(Spaces(2 * n) + line, line)
    ensures |Spaces(2 * n) + line| - |line| == 2 * n
  {
  }

  /**
   * The lines, each indented by two spaces per level, starting from counter `pad`:
   * every output line is its input line behind an even run of spaces.
   */
  function FormatLines(lines: seq<string>, pad: nat): (r: seq<string>)
    ensures |r| == |lines|
    ensures forall i :: 0 <= i < |lines| ==> IsIndented(r[i], lines[i])
  {
    if lines == [] then []
    else
      var step := StepPad(lines[0], pad);
      SpacesThenLine(step.depth, lines[0]);
      [Spaces(2 * step.depth) + lines[0]] + FormatLines(lines[1..], step.pad)
  }

  /** No line is indented deeper than the starting level plus the opening tags before it. */
  lemma {:induction false} FormatDepthBound(lines: seq<string>, pad: nat, i: nat)
    requires i < |lines|
    ensures |FormatLines(lines, pad)[i]| - |lines[i]| <= 2 * (pad + OpeningCount(lines[..i]))
    decreases i
  {
    var step := StepPad(lines[0], pad);
    var rest := FormatLines(lines[1..], step.pad);
    if i == 0 {
      assert FormatLines(lines, pad)[0] == Spaces(2 * step.depth) + lines[0];
      assert lines[..0] == [];
    } else {
      assert FormatLines(lines, pad)[i] == rest[i - 1];
      FormatDepthBound(lines[1..], step.pad, i - 1);
      assert lines[..i][0] == lines[0] && lines[..i][1..] == lines[1..][..i - 1];
      assert lines[1..][i - 1] == lines[i];
    }
  }

  /**
   * A line that opens a tag (and does not close one at its end) indents the next line two
   * spaces deeper, unless that next line starts with a closing tag without ending in one,
   * in which case the two lines line up.
   */
  lemma {:induction false} OpeningLineIndentsNext(lines: seq<string>, pad: nat, i: nat)
    requires i + 1 < |lines|
    requires IsOpeningTag(lines[i]) && !EndsWithClosingTag(lines[i])
    ensures var out := FormatLines(lines, pad);
            var here, next := |out[i]| - |lines[i]|, |out[i + 1]| - |lines[i + 1]|;
            if StartsWithClosingTag(lines[i + 1]) && !EndsWithClosingTag(lines[i + 1])
            then next == here else next == here + 2
    decreases i
  {
    var step := StepPad(lines[0], pad);
    var rest := FormatLines(lines[1..], step.pad);
    assert FormatLines(lines, pad)[1..] == rest;
    if i == 0 {
      var step2 := StepPad(lines[1], step.pad);
      assert lines[1..][0] == lines[1];
      assert rest[0] == Spaces(2 * step2.depth) + lines[1];
      assert FormatLines(lines, pad)[0] == Spaces(2 * step.depth) + lines[0];
    } else {
      OpeningLineIndentsNext(lines[1..], step.pad, i - 1);
      assert lines[1..][i - 1] == lines[i] && lines[1..][i] == lines[i + 1];
    }
  }

  /** Three lines are each indented to the depth of their own step, the counter threaded through. */
  lemma FormatThreeLines(a: string, b: string, c: string, pad: nat)
    ensures var sa := StepPad(a, pad);
            var sb := StepPad(b, sa.pad);
            var sc := StepPad(c, sb.pad);
            FormatLines([a, b, c], pad)
              == [Spaces(2 * sa.depth) + a, Spaces(2 * sb.depth) + b, Spaces(2 * sc.depth) + c]
  {
    var sa := StepPad(a, pad);
    var sb := StepPad(b, sa.pad);
    var sc := StepPad(c, sb.pad);
    assert [a, b, c][1..] == [b, c] && [b, c][1..] == [c] && [c][1..] == [];
    assert FormatLines([c], sb.pad) == [Spaces(2 * sc.depth) + c];
    assert FormatLines([b, c], sa.pad) == [Spaces(2 * sb.depth) + b] + [Spaces(2 * sc.depth) + c];
    assert FormatLines([a, b, c], pad)
        == [Spaces(2 * sa.depth) + a] + ([Spaces(2 * sb.depth) + b] + [Spaces(2 * sc.depth) + c]);
  }

  /** The counter steps over the lines of `FormatNestedExample`. */
  lemma NestedExampleSteps()
    ensures StepPad("<ab>", 0) == LineStep(1, 0)
    ensures StepPad("<c/>", 1) == LineStep(1, 1)
    ensures StepPad("</ab>", 1) == LineStep(0, 0)
  {
    ClassifierExamples();
    assert !EndsWithClosingTag("</ab>") by {
      forall p | 1 <= p && p + 4 <= |"</ab>"| ensures !ClosingTagEndsAt("</ab>", p) {
        assert "</ab>"[1] == '/';
      }
    }
  }

  /** An element holding a self-closing child: the child is indented one level. */
  lemma FormatNestedExample(open: string, child: string, close: string)
    requires open == "<ab>" && child == "<c/>" && close == "</ab>"
    ensures FormatLines([open, child, close], 0) == [open, "  " + child, close]
  {
    assert FormatLines([open, child, close], 0) == [Spaces(0) + open, Spaces(2) + child, Spaces(0) + close] by {
      NestedExampleSteps();
      FormatThreeLines(open, child, close, 0);
    }
    assert Spaces(0) + open == open && Spaces(0) + close == close by {
      assert Spaces(0) == [];
    }
    assert Spaces(2) == "  ";
  }

  /** `formatXml`. */
  function FormatXml(xml: string): string {
    JoinLines(FormatLines(SplitLines(Expand(xml)), 0))
  }

  lemma IndentedKeepsNoCrlf(line: string, segment: string)
    requires IsIndented(line, segment) && NoCrlf(segment)
    ensures NoCrlf(line)
  {
    var n := |line| - |segment|;
    forall i | 0 <= i < |line| - 1
      ensures !(line[i] == '\r' && line[i + 1] == '\n')
    {
      if i >= n {
        assert line[i] == segment[i - n] && line[i + 1] == segment[i + 1 - n];
      }
    }
  }

  /**
   * The formatted text has exactly as many lines as the expanded input has pieces, and
   * each line is its piece, unchanged, behind an even run of spaces.
   */
  lemma FormatXmlLines(xml: string)
    ensures |SplitLines(FormatXml(xml))| == |SplitLines(Expand(xml))|
    ensures forall i :: 0 <= i < |SplitLines(Expand(xml))| ==>
              IsIndented(SplitLines(FormatXml(xml))[i], SplitLines(Expand(xml))[i])
  {
    var pieces := SplitLines(Expand(xml));
    var lines := FormatLines(pieces, 0);
    forall l | l in lines
      ensures NoCrlf(l)
    {
      var i :| 0 <= i < |lines| && lines[i] == l;
      assert pieces[i] in pieces;
      IndentedKeepsNoCrlf(l, pieces[i]);
    }
    SplitJoin(lines);
  }

  /** Text that has no `>` `<` pair is split as it stands. */
  lemma FormatXmlNoBoundaryExpandsNothing(xml: string)
    requires NoTagBoundary(xml)
    ensures FormatXml(xml) == JoinLines(FormatLines(SplitLines(xml), 0))
  {
    ExpandWithoutBoundary(xml);
  }
}
