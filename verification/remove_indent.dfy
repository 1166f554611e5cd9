/** prpfmt/remove_indent.py: every line of a file is written out again without its
    leading whitespace. Opening and closing the files is left to the caller; the
    model works on the file's text. */
module RemoveIndent {

  import opened Text

  /** `line.lstrip()`: the line from its first non-whitespace character on. */
  function LStrip(line: string): (r: string)
    ensures |r| <= |line| && r == line[|line| - |r|..]
    ensures forall i :: 0 <= i < |line| - |r| ==> IsSpace(line[i])
    ensures r == [] || !IsSpace(r[0])
    ensures r == [] <==> forall i :: 0 <= i < |line| ==> IsSpace(line[i])
    decreases |line|
  {
    if line != [] && IsSpace(line[0]) then LStrip(line[1..]) else line
  }

  /** Length of the first line of `text`: up to and including its first newline, or
      all of `text` when there is none. */
  function LineLength(text: string): (k: nat)
    requires text != []
    ensures 1 <= k <= |text|
    ensures forall i :: 0 <= i < k - 1 ==> text[i] != '\n'
    ensures k < |text| ==> text[k - 1] == '\n'
    decreases |text|
  {
    if text[0] == '\n' || |text| == 1 then 1 else 1 + LineLength(text[1..])
  }

  /** The lines `for line in f_in` yields: each keeps its newline, the last one may
      lack it. */
  function SplitLines(text: string): (lines: seq<string>)
    decreases |text|
  {
    if text == [] then []
    else
      var k := LineLength(text);
      [text[..k]] + SplitLines(text[k..])
  }

  function Concat(lines: seq<string>): string
    decreases |lines|
  {
    if lines == [] then [] else lines[0] + Concat(lines[1..])
  }

  /** A line as the file iterator yields it: not empty, and a newline only at its end. */
  predicate IsLine(l: string) {
    l != [] && forall i :: 0 <= i < |l| - 1 ==> l[i] != '\n'
  }

  predicate EndsWithNewline(l: string) {
    l != [] && l[|l| - 1] == '\n'
  }

  /** A sequence of lines as a text splits into: every line but the last ends with a newline. */
  predicate ProperLines(lines: seq<string>)
    decreases |lines|
  {
    lines == [] ||
    (IsLine(lines[0]) && (|lines| > 1 ==> EndsWithNewline(lines[0])) && ProperLines(lines[1..]))
  }

  /** The first line of a text is a proper line, ending with a newline when more follows. */
  lemma FirstLine(text: string)
    requires text != []
    ensures IsLine(text[..LineLength(text)])
    ensures LineLength(text) < |text| ==> EndsWithNewline(text[..LineLength(text)])
  {
    var k := LineLength(text);
    var first := text[..k];
    assert forall i :: 0 <= i < k ==> first[i] == text[i];
  }

  /** A proper line in front of proper lines. */
  lemma ProperCons(l: string, rest: seq<string>)
    requires IsLine(l) && (rest != [] ==> EndsWithNewline(l)) && ProperLines(rest)
    ensures ProperLines([l] + rest)
    ensures Concat([l] + rest) == l + Concat(rest)
  {
    assert ([l] + rest)[1..] == rest;
  }

  /** Splitting a text yields proper lines that join back into the text. */
  lemma {:induction false} SplitLinesInverse(text: string)
    ensures ProperLines(SplitLines(text))
    ensures Concat(SplitLines(text)) == text
    decreases |text|
  {
    if text != [] {
      var k := LineLength(text);
      var first, rest := text[..k], SplitLines(text[k..]);
      SplitLinesInverse(text[k..]);
      FirstLine(text);
      assert k == |text| ==> rest == [];
      ProperCons(first, rest);
      assert text == first + text[k..];
    }
  }

  /** Joining proper lines and splitting again gives the same lines. */
  lemma {:induction false} ConcatSplitLines(lines: seq<string>)
    requires ProperLines(lines)
    ensures SplitLines(Concat(lines)) == lines
    decreases |lines|
  {
    if lines != [] {
      var l := lines[0];
      var rest := Concat(lines[1..]);
      var text := l + rest;
      assert Concat(lines) == text;
      ConcatSplitLines(lines[1..]);
      var k := LineLength(text);
      assert forall i :: 0 <= i < |l| ==> text[i] == l[i];
      assert k == |l|;
      assert text[..k] == l && text[k..] == rest;
    }
  }

  /** What the loop writes for a sequence of lines. */
  function StripLines(lines: seq<string>): string
    decreases |lines|
  {
    if lines == [] then [] else LStrip(lines[0]) + StripLines(lines[1..])
  }

  /** The loop never writes more than the lines hold. */
  lemma {:induction false} StripLinesNoLonger(lines: seq<string>)
    ensures |StripLines(lines)| <= |Concat(lines)|
    decreases |lines|
  {
    if lines != [] {
      StripLinesNoLonger(lines[1..]);
    }
  }

  /** `remove_leading_whitespace` on the text of the input file. */
  function RemoveIndent(text: string): string
  {
    StripLines(SplitLines(text))
  }

  /** The output is no longer than the input and never starts with whitespace. */
  lemma RemoveIndentShape(text: string)
    ensures |RemoveIndent(text)| <= |text|
    ensures RemoveIndent(text) == [] || !IsSpace(RemoveIndent(text)[0])
  {
    var lines := SplitLines(text);
    SplitLinesInverse(text);
    StripLinesNoLonger(lines);
    StripLinesIsConcatOfKept(lines);
    var ks := Kept(lines);
    assert ks != [] ==> Concat(ks) == ks[0] + Concat(ks[1..]);
  }

  /** Every line is non-empty and starts with a non-whitespace character. */
  predicate AllStripped(lines: seq<string>)
    decreases |lines|
  {
    lines == [] || (lines[0] != [] && !IsSpace(lines[0][0]) && AllStripped(lines[1..]))
  }

  /** The lines that survive, stripped, in input order: a line made only of whitespace
      (its newline included) vanishes. */
  function Kept(lines: seq<string>): (ks: seq<string>)
    ensures |ks| <= |lines|
    ensures AllStripped(ks)
    decreases |lines|
  {
    if lines == [] then []
    else
      var first, rest := LStrip(lines[0]), Kept(lines[1..]);
      if first == [] then rest
      else
        assert ([first] + rest)[1..] == rest;
        [first] + rest
  }

  lemma {:induction false} StripLinesIsConcatOfKept(lines: seq<string>)
    ensures StripLines(lines) == Concat(Kept(lines))
    decreases |lines|
  {
    if lines != [] {
      StripLinesIsConcatOfKept(lines[1..]);
      var head := if LStrip(lines[0]) == [] then [] else [LStrip(lines[0])];
      ConcatAppend(head, Kept(lines[1..]));
      assert Concat(head) == LStrip(lines[0]) by {
        if head != [] { assert head[1..] == []; }
      }
    }
  }

  lemma {:induction false} ConcatAppend(a: seq<string>, b: seq<string>)
    ensures Concat(a + b) == Concat(a) + Concat(b)
    decreases |a|
  {
    if a == [] {
      assert a + b == b;
    } else {
      assert (a + b)[1..] == a[1..] + b;
      ConcatAppend(a[1..], b);
    }
  }

  /** Stripping keeps a proper line proper, and keeps its final newline when it has one
      and is not blank. */
  lemma StrippedLine(l: string)
    requires IsLine(l)
    requires LStrip(l) != []
    ensures IsLine(LStrip(l))
    ensures EndsWithNewline(l) ==> EndsWithNewline(LStrip(l))
  {
    var r := LStrip(l);
    var d := |l| - |r|;
    assert r == l[d..];
    forall i | 0 <= i < |r| - 1 ensures r[i] != '\n' {
      assert r[i] == l[d + i];
    }
    assert r[|r| - 1] == l[|l| - 1];
  }

  /** The surviving lines are proper lines again. */
  lemma {:induction false} KeptProper(lines: seq<string>)
    requires ProperLines(lines)
    ensures ProperLines(Kept(lines))
    decreases |lines|
  {
    if lines != [] {
      KeptProper(lines[1..]);
      var ks := Kept(lines);
      if LStrip(lines[0]) != [] {
        StrippedLine(lines[0]);
        assert ks[0] == LStrip(lines[0]) && ks[1..] == Kept(lines[1..]);
        if |ks| > 1 {
          assert |lines| > 1;
        }
      }
    }
  }

  /** Lines that are already stripped and not empty survive unchanged. */
  lemma {:induction false} KeptOfStripped(ks: seq<string>)
    requires AllStripped(ks)
    ensures Kept(ks) == ks
    decreases |ks|
  {
    if ks != [] {
      KeptOfStripped(ks[1..]);
      var first := ks[0];
      assert LStrip(first) == first;
      assert Kept(ks) == [first] + Kept(ks[1..]);
      assert ks == [first] + ks[1..];
    }
  }

  /** The output, split into lines again, is the list of surviving stripped lines: line
      order is kept and blank lines are gone. */
  lemma OutputLines(text: string)
    ensures SplitLines(RemoveIndent(text)) == Kept(SplitLines(text))
  {
    var lines := SplitLines(text);
    SplitLinesInverse(text);
    StripLinesIsConcatOfKept(lines);
    KeptProper(lines);
    ConcatSplitLines(Kept(lines));
  }

  /** Running the tool on its own output changes nothing. */
  lemma RemoveIndentIdempotent(text: string)
    ensures RemoveIndent(RemoveIndent(text)) == RemoveIndent(text)
  {
    var ks := Kept(SplitLines(text));
    OutputLines(text);
    StripLinesIsConcatOfKept(SplitLines(text));
    StripLinesIsConcatOfKept(ks);
    KeptOfStripped(ks);
  }

  /** One more line of the loop: after what is written so far comes the line stripped,
      then the rest. */
  lemma StripLinesStep(lines: seq<string>, k: nat, written: string)
    requires k < |lines|
    ensures written + StripLines(lines[k..]) == (written + LStrip(lines[k])) + StripLines(lines[k + 1..])
  {
    assert lines[k..][1..] == lines[k + 1..];
  }

  /** `remove_leading_whitespace`: reads the input line by line and writes each line
      stripped of its leading whitespace. */
  method RemoveLeadingWhitespace(input: string) returns (output: string)
    ensures output == RemoveIndent(input)
  {
    var lines := SplitLines(input);
    output := [];
    var k := 0;
    while k < |lines|
      invariant 0 <= k <= |lines|
      invariant output + StripLines(lines[k..]) == StripLines(lines)
    {
      StripLinesStep(lines, k, output);
      output := output + LStrip(lines[k]);
      k := k + 1;
    }
    assert StripLines(lines[k..]) == [] by {
      assert lines[k..] == [];
    }
    assert output + [] == output;
  }
}
