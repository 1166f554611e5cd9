/** The regression runner prpfmt/run_tests.py: every `.prp` file of the test directory
    is formatted, and the formatter passes a file when the input and the output agree
    once comments, semicolons and whitespace are taken out of both. The directory
    listing, the files' contents and the formatter's runs are given as inputs. */
module RunTests {

  import opened Wrappers
  import opened Text
  import opened Ordering

  // ---------------------------------------------------------------------------
  // normalize

  /** `a` can be obtained from `b` by deleting characters. */
  predicate IsSubsequence(a: string, b: string)
    decreases |b|
  {
    a == [] || (b != [] && ((a[0] == b[0] && IsSubsequence(a[1..], b[1..])) || IsSubsequence(a, b[1..])))
  }

  lemma {:induction false} SubsequenceNoLonger(a: string, b: string)
    requires IsSubsequence(a, b)
    ensures |a| <= |b|
    decreases |b|
  {
    if a != [] {
      if a[0] == b[0] && IsSubsequence(a[1..], b[1..]) {
        SubsequenceNoLonger(a[1..], b[1..]);
      } else {
        SubsequenceNoLonger(a, b[1..]);
      }
    }
  }

  lemma {:induction false} SubsequenceTransitive(a: string, b: string, c: string)
    requires IsSubsequence(a, b) && IsSubsequence(b, c)
    ensures IsSubsequence(a, c)
    decreases |c|
  {
    if a != [] {
      if IsSubsequence(b, c[1..]) {
        SubsequenceTransitive(a, b, c[1..]);
      } else if a[0] == b[0] && IsSubsequence(a[1..], b[1..]) {
        SubsequenceTransitive(a[1..], b[1..], c[1..]);
      } else {
        SubsequenceTransitive(a, b[1..], c[1..]);
      }
    }
  }

  /** A subsequence of a suffix of `s` is a subsequence of `s`. */
  lemma {:induction false} SubsequenceOfSuffix(a: string, s: string, k: nat)
    requires k <= |s| && IsSubsequence(a, s[k..])
    ensures IsSubsequence(a, s)
    decreases k
  {
    if k > 0 {
      assert s[1..][k - 1..] == s[k..];
      SubsequenceOfSuffix(a, s[1..], k - 1);
    }
  }

  /** The text `.*` matches at the start of `s`: everything up to, not including, the
      first newline. What is left starts at that newline. */
  function DropToNewline(s: string): (r: string)
    ensures |r| <= |s| && r == s[|s| - |r|..]
    ensures r == [] || r[0] == '\n'
    ensures forall i :: 0 <= i < |s| - |r| ==> s[i] != '\n'
    decreases |s|
  {
    if s == [] || s[0] == '\n' then s else DropToNewline(s[1..])
  }

  /** `re.sub(r'//.*', '', s)`: from every `//`, scanning left to right, to the end of
      its line. */
  function StripComments(s: string): (r: string)
    ensures |r| <= |s|
    decreases |s|
  {
    if s == [] then []
    else if |s| >= 2 && s[0] == '/' && s[1] == '/' then StripComments(DropToNewline(s[2..]))
    else [s[0]] + StripComments(s[1..])
  }

  lemma {:induction false} StripCommentsIsSubsequence(s: string)
    ensures IsSubsequence(StripComments(s), s)
    decreases |s|
  {
    if s == [] {
    } else if |s| >= 2 && s[0] == '/' && s[1] == '/' {
      var rest := DropToNewline(s[2..]);
      StripCommentsIsSubsequence(rest);
      assert rest == s[|s| - |rest|..] by {
        assert s[2..][|s| - 2 - |rest|..] == s[|s| - |rest|..];
      }
      SubsequenceOfSuffix(StripComments(rest), s, |s| - |rest|);
    } else {
      StripCommentsIsSubsequence(s[1..]);
      var r := StripComments(s);
      assert r == [s[0]] + StripComments(s[1..]);
      assert r[1..] == StripComments(s[1..]);
    }
  }

  /** `s.replace(';', '')`. */
  function RemoveSemicolons(s: string): (r: string)
    ensures ';' !in r
    ensures forall c :: c in r ==> c in s
    decreases |s|
  {
    if s == [] then []
    else
      if s[0] == ';' then RemoveSemicolons(s[1..])
      else [s[0]] + RemoveSemicolons(s[1..])
  }

  /** `re.sub(r'\s+', '', s)`. */
  function RemoveWhitespace(s: string): (r: string)
    ensures forall c :: c in r ==> !IsSpace(c)
    ensures forall c :: c in r ==> c in s
    decreases |s|
  {
    if s == [] then []
    else
      if IsSpace(s[0]) then RemoveWhitespace(s[1..])
      else [s[0]] + RemoveWhitespace(s[1..])
  }

  /** Every character but `;` is kept, as often as it occurs. */
  lemma {:induction false} RemoveSemicolonsCounts(s: string)
    ensures multiset(RemoveSemicolons(s)) == multiset(s)[';' := 0]
    decreases |s|
  {
    if s != [] {
      RemoveSemicolonsCounts(s[1..]);
      assert s == [s[0]] + s[1..];
    }
  }

  /** Every character but whitespace is kept, as often as it occurs. */
  lemma {:induction false} RemoveWhitespaceCounts(s: string)
    ensures multiset(RemoveWhitespace(s)) == WithoutSpaces(multiset(s))
    decreases |s|
  {
    if s != [] {
      RemoveWhitespaceCounts(s[1..]);
      assert s == [s[0]] + s[1..];
      WithoutSpacesAddOne(s[0], multiset(s[1..]));
      if !IsSpace(s[0]) {
        assert RemoveWhitespace(s) == [s[0]] + RemoveWhitespace(s[1..]);
      }
    }
  }

  lemma {:induction false} RemoveSemicolonsIsSubsequence(s: string)
    ensures IsSubsequence(RemoveSemicolons(s), s)
    decreases |s|
  {
    if s != [] {
      RemoveSemicolonsIsSubsequence(s[1..]);
      if s[0] != ';' {
        var r := RemoveSemicolons(s);
        assert r[0] == s[0] && r[1..] == RemoveSemicolons(s[1..]);
      }
    }
  }

  lemma {:induction false} RemoveWhitespaceIsSubsequence(s: string)
    ensures IsSubsequence(RemoveWhitespace(s), s)
    decreases |s|
  {
    if s != [] {
      RemoveWhitespaceIsSubsequence(s[1..]);
      if !IsSpace(s[0]) {
        var r := RemoveWhitespace(s);
        assert r[0] == s[0] && r[1..] == RemoveWhitespace(s[1..]);
      }
    }
  }

  /** `normalize`: comments, then semicolons, then whitespace are taken out. The result
      holds neither a semicolon nor whitespace, keeps every other character of the
      comment-free text in order, and only ever loses characters. */
  function Normalize(text: string): (r: string)
    ensures ';' !in r
    ensures forall c :: c in r ==> !IsSpace(c)
    ensures IsSubsequence(r, StripComments(text))
    ensures IsSubsequence(r, text) && |r| <= |text|
  {
    var a := StripComments(text);
    var b := RemoveSemicolons(a);
    var r := RemoveWhitespace(b);
    StripCommentsIsSubsequence(text);
    RemoveSemicolonsIsSubsequence(a);
    RemoveWhitespaceIsSubsequence(b);
    SubsequenceTransitive(r, b, a);
    SubsequenceTransitive(r, a, text);
    SubsequenceNoLonger(r, text);
    r
  }

  /** Normalizing keeps every character of the comment-free text other than `;` and
      whitespace, as often as it occurs there. */
  lemma NormalizeCounts(text: string)
    ensures multiset(Normalize(text)) == WithoutSpaces(multiset(StripComments(text))[';' := 0])
  {
    RemoveSemicolonsCounts(StripComments(text));
    RemoveWhitespaceCounts(RemoveSemicolons(StripComments(text)));
  }

  /** A character other than `/` is kept and scanning goes on after it. */
  lemma StripCommentsPlainHead(c: char, s: string)
    requires c != '/'
    ensures StripComments([c] + s) == [c] + StripComments(s)
  {
    var t := [c] + s;
    assert t[0] == c && t[1..] == s;
  }

  /** At `//` the rest of the line is dropped. */
  lemma StripCommentsAtComment(body: string)
    ensures StripComments("//" + body) == StripComments(DropToNewline(body))
  {
    var t := "//" + body;
    assert t[0] == '/' && t[1] == '/' && t[2..] == body;
  }

  /** No `//` occurs in `p`. */
  predicate NoCommentIn(p: string) {
    forall i, j :: 0 <= i < |p| && j == i + 1 && j < |p| ==> !(p[i] == '/' && p[j] == '/')
  }

  /** Writing `p` right before `s` does not form a `//` across the join. */
  predicate JoinsCleanly(p: string, s: string) {
    p == [] || s == [] || p[|p| - 1] != '/' || s[0] != '/'
  }

  lemma NoCommentInTail(p: string)
    requires p != [] && NoCommentIn(p)
    ensures NoCommentIn(p[1..])
  {
    forall i | 0 <= i < |p[1..]| - 1
      ensures !(p[1..][i] == '/' && p[1..][i + 1] == '/')
    {
      assert p[1..][i] == p[i + 1] && p[1..][i + 1] == p[i + 2];
    }
  }

  /** Where no `//` starts, the character is kept and scanning goes on after it. */
  lemma StripCommentsHead(t: string)
    requires t != [] && !(|t| >= 2 && t[0] == '/' && t[1] == '/')
    ensures StripComments(t) == [t[0]] + StripComments(t[1..])
  {
  }

  /** Code holding no `//` (a division `a / b` is fine) is kept as it is, as long as
      it does not end in the first `/` of a `//` that `s` completes. */
  lemma {:induction false} StripCommentsKeepsPlainPrefix(p: string, s: string)
    requires NoCommentIn(p) && JoinsCleanly(p, s)
    ensures StripComments(p + s) == p + StripComments(s)
    decreases |p|
  {
    if p == [] {
      assert p + s == s;
    } else {
      var t := p + s;
      assert t[0] == p[0] && t[1..] == p[1..] + s;
      if |t| >= 2 && p[0] == '/' {
        if |p| >= 2 {
          assert t[1] == p[1];
        } else {
          assert t[1] == s[0];
        }
      }
      NoCommentInTail(p);
      calc {
        StripComments(p + s);
      == { StripCommentsHead(t); }
        [p[0]] + StripComments(p[1..] + s);
      == { StripCommentsKeepsPlainPrefix(p[1..], s); }
        [p[0]] + (p[1..] + StripComments(s));
      ==
        ([p[0]] + p[1..]) + StripComments(s);
      == { assert p == [p[0]] + p[1..]; }
        p + StripComments(s);
      }
    }
  }

  /** Dropping a comment body stops at the newline that ends it. */
  lemma DropStopsAtNewline(c: string, rest: string)
    requires '\n' !in c
    ensures DropToNewline(c + "\n" + rest) == "\n" + rest
  {
    var s := c + "\n" + rest;
    assert s[|c|] == '\n';
    assert forall i :: 0 <= i < |c| ==> s[i] == c[i];
    assert s[|c|..] == "\n" + rest;
  }

  /** A comment body with no newline is dropped entirely. */
  lemma DropWholeLine(c: string)
    requires '\n' !in c
    ensures DropToNewline(c) == []
  {
  }

  /** A `//` comment runs to the end of its line only: the newline and every later
      line are kept. */
  lemma {:induction false} CommentRunsToEndOfLine(p: string, c: string, rest: string)
    requires NoCommentIn(p) && (p == [] || p[|p| - 1] != '/') && '\n' !in c
    ensures StripComments(p + "//" + c + "\n" + rest) == p + "\n" + StripComments(rest)
  {
    var t := "//" + c + "\n" + rest;
    assert JoinsCleanly(p, t) by {
      assert t[0] == '/';
    }
    CommentLineRegrouped(p, c, rest, StripComments(rest));
    StripCommentsKeepsPlainPrefix(p, t);
    CommentLine(c, rest);
  }

  lemma CommentLineRegrouped(p: string, c: string, rest: string, x: string)
    ensures p + "//" + c + "\n" + rest == p + ("//" + c + "\n" + rest)
    ensures p + ("\n" + x) == p + "\n" + x
  {
  }

  /** A division is not a comment: in `x = a / b // ...` only the text from `//` on goes. */
  lemma DivisionBeforeComment(c: string, rest: string)
    requires '\n' !in c
    ensures StripComments("x = a / b //" + c + "\n" + rest) == "x = a / b \n" + StripComments(rest)
  {
    var p := "x = a / b ";
    assert "x = a / b //" + c + "\n" + rest == p + "//" + c + "\n" + rest;
    assert NoCommentIn(p);
    CommentRunsToEndOfLine(p, c, rest);
  }

  /** A line that starts with `//` leaves only its newline. */
  lemma {:induction false} CommentLine(c: string, rest: string)
    requires '\n' !in c
    ensures StripComments("//" + c + "\n" + rest) == "\n" + StripComments(rest)
  {
    var body := c + "\n" + rest;
    assert "//" + c + "\n" + rest == "//" + body;
    StripCommentsAtComment(body);
    DropStopsAtNewline(c, rest);
    StripCommentsPlainHead('\n', rest);
  }

  /** A comment on the last line, with no newline after it, runs to the end of the text. */
  lemma CommentRunsToEndOfText(p: string, c: string)
    requires NoCommentIn(p) && (p == [] || p[|p| - 1] != '/') && '\n' !in c
    ensures StripComments(p + "//" + c) == p
  {
    assert p + "//" + c == p + ("//" + c);
    StripCommentsKeepsPlainPrefix(p, "//" + c);
    StripCommentsAtComment(c);
    DropWholeLine(c);
    assert StripComments([]) == [];
    assert p + [] == p;
  }

  lemma {:induction false} RemoveSemicolonsAppend(a: string, b: string)
    ensures RemoveSemicolons(a + b) == RemoveSemicolons(a) + RemoveSemicolons(b)
    decreases |a|
  {
    if a != [] {
      assert (a + b)[1..] == a[1..] + b;
      RemoveSemicolonsAppend(a[1..], b);
      var head := if a[0] == ';' then [] else [a[0]];
      assert RemoveSemicolons(a + b) == head + RemoveSemicolons(a[1..] + b);
      assert RemoveSemicolons(a) == head + RemoveSemicolons(a[1..]);
    } else {
      assert a + b == b;
    }
  }

  lemma {:induction false} RemoveWhitespaceAppend(a: string, b: string)
    ensures RemoveWhitespace(a + b) == RemoveWhitespace(a) + RemoveWhitespace(b)
    decreases |a|
  {
    if a != [] {
      assert (a + b)[1..] == a[1..] + b;
      RemoveWhitespaceAppend(a[1..], b);
      var head := if IsSpace(a[0]) then [] else [a[0]];
      assert RemoveWhitespace(a + b) == head + RemoveWhitespace(a[1..] + b);
      assert RemoveWhitespace(a) == head + RemoveWhitespace(a[1..]);
    } else {
      assert a + b == b;
    }
  }

  /** A text without `//`, `;` or whitespace is its own normal form. */
  lemma {:induction false} NormalizeKeepsPlainText(s: string)
    requires NoCommentIn(s) && ';' !in s && forall c :: c in s ==> !IsSpace(c)
    ensures Normalize(s) == s
    decreases |s|
  {
    StripCommentsKeepsPlainPrefix(s, []);
    assert s + [] == s;
    if s != [] {
      assert s[0] in s;
      assert forall c :: c in s[1..] ==> c in s;
      NoCommentInTail(s);
      NormalizeKeepsPlainText(s[1..]);
      StripCommentsKeepsPlainPrefix(s[1..], []);
      assert s[1..] + [] == s[1..];
      assert RemoveSemicolons(s) == [s[0]] + RemoveSemicolons(s[1..]);
      assert RemoveWhitespace([s[0]] + RemoveSemicolons(s[1..])) == [s[0]] + RemoveWhitespace(RemoveSemicolons(s[1..]));
      assert s == [s[0]] + s[1..];
    }
  }

  /** Once comments are gone, a space, a newline or a semicolon is erased wherever it is. */
  lemma {:induction false} LayoutCharErased(x: string, c: char, z: string)
    requires IsSpace(c) || c == ';'
    ensures RemoveWhitespace(RemoveSemicolons(x + [c] + z)) == RemoveWhitespace(RemoveSemicolons(x + z))
  {
    var sx, sz := RemoveSemicolons(x), RemoveSemicolons(z);
    if c != ';' {
      calc {
        RemoveWhitespace(RemoveSemicolons(x + [c] + z));
      == { SemicolonsAround(x, c, z); }
        RemoveWhitespace(sx + [c] + sz);
      == { WhitespaceAround(sx, c, sz); }
        RemoveWhitespace(sx + sz);
      == { SemicolonsAround(x, c, z); }
        RemoveWhitespace(RemoveSemicolons(x + z));
      }
    } else {
      SemicolonsAround(x, c, z);
      assert sx + [] + sz == sx + sz;
    }
  }

  lemma {:induction false} SemicolonsAround(x: string, c: char, z: string)
    ensures RemoveSemicolons(x + [c] + z) == RemoveSemicolons(x) + (if c == ';' then [] else [c]) + RemoveSemicolons(z)
    ensures RemoveSemicolons(x + z) == RemoveSemicolons(x) + RemoveSemicolons(z)
  {
    var xc := x + [c];
    RemoveSemicolonsAppend(xc, z);
    RemoveSemicolonsAppend(x, [c]);
    RemoveSemicolonsAppend(x, z);
    assert RemoveSemicolons([c]) == (if c == ';' then [] else [c]) by {
      assert [c][1..] == [];
      assert RemoveSemicolons([]) == [];
    }
  }

  /** A whitespace character vanishes from the middle. */
  lemma {:induction false} WhitespaceAround(a: string, c: char, b: string)
    requires IsSpace(c)
    ensures RemoveWhitespace(a + [c] + b) == RemoveWhitespace(a + b)
  {
    var ac := a + [c];
    assert RemoveWhitespace([c]) == [] by {
      assert [c][1..] == [];
      assert RemoveWhitespace([]) == [];
    }
    assert RemoveWhitespace(ac) == RemoveWhitespace(a) by {
      RemoveWhitespaceAppend(a, [c]);
    }
    assert RemoveWhitespace(ac + b) == RemoveWhitespace(ac) + RemoveWhitespace(b) by {
      RemoveWhitespaceAppend(ac, b);
    }
    RemoveWhitespaceAppend(a, b);
  }

  /** A character other than `/` cannot complete a `//`. */
  lemma NoCommentThenPlain(x: string, c: char)
    requires NoCommentIn(x) && c != '/'
    ensures NoCommentIn(x + [c])
  {
    var xc := x + [c];
    forall i, j | 0 <= i < |xc| && j == i + 1 && j < |xc|
      ensures !(xc[i] == '/' && xc[j] == '/')
    {
      if j < |x| {
        assert xc[i] == x[i] && xc[j] == x[j];
      }
    }
  }

  /** Inserting a space, a newline or a semicolon anywhere in the code before the first
      comment (but not between the two slashes of a `//`) does not change the normal
      form: layout and terminators do not count. */
  lemma NormalizeIgnoresLayout(x: string, c: char, y: string)
    requires NoCommentIn(x) && JoinsCleanly(x, y)
    requires IsSpace(c) || c == ';'
    ensures Normalize(x + [c] + y) == Normalize(x + y)
  {
    NoCommentThenPlain(x, c);
    StripCommentsKeepsPlainPrefix(x + [c], y);
    StripCommentsKeepsPlainPrefix(x, y);
    var sy := StripComments(y);
    assert StripComments(x + [c] + y) == x + [c] + sy;
    assert StripComments(x + y) == x + sy;
    LayoutCharErased(x, c, sy);
  }

  // ---------------------------------------------------------------------------
  // run_test

  /** What `subprocess.run([PRPFMT_EXECUTABLE, file_path], ...)` came back with. */
  datatype FormatterRun = Exited(code: int, stdout: string) | NotFound

  /** `True`, `False`, or `sys.exit(1)` from inside `run_test`. */
  datatype TestOutcome = Pass | Fail | Abort

  /** `run_test`: an unreadable file or a failing formatter fails the test, a missing
      formatter stops the whole run, and otherwise the test passes exactly when the
      normal forms of the input and of the formatter's output agree. */
  function RunTest(original: Option<string>, run: FormatterRun): (o: TestOutcome)
    ensures o == Pass <==>
              original.Some? && run.Exited? && run.code == 0 && Normalize(original.value) == Normalize(run.stdout)
    ensures o == Abort <==> original.Some? && run.NotFound?
  {
    match original
    case None => Fail
    case Some(text) =>
      match run
      case NotFound => Abort
      case Exited(code, out) =>
        if code != 0 then Fail
        else if Normalize(text) == Normalize(out) then Pass
        else Fail
  }

  predicate IsLayout(w: string) {
    forall i :: 0 <= i < |w| ==> IsSpace(w[i]) || w[i] == ';'
  }

  /** A whole run of spaces, newlines and semicolons inserted in the code before the first
      comment leaves the normal form unchanged. */
  lemma {:induction false} NormalizeIgnoresLayoutRun(x: string, w: string, y: string)
    requires NoCommentIn(x) && JoinsCleanly(x, y)
    requires IsLayout(w)
    ensures Normalize(x + w + y) == Normalize(x + y)
    decreases |w|
  {
    if w == [] {
      assert x + w + y == x + y;
    } else {
      var x' := x + [w[0]];
      assert w[0] != '/';
      NoCommentThenPlain(x, w[0]);
      assert IsLayout(w[1..]) by {
        forall i | 0 <= i < |w[1..]| ensures IsSpace(w[1..][i]) || w[1..][i] == ';' {
          assert w[1..][i] == w[i + 1];
        }
      }
      calc {
        Normalize(x + w + y);
      == { assert x + w + y == x' + w[1..] + y; }
        Normalize(x' + w[1..] + y);
      == { NormalizeIgnoresLayoutRun(x', w[1..], y); }
        Normalize(x' + y);
      == { NormalizeIgnoresLayout(x, w[0], y); }
        Normalize(x + y);
      }
    }
  }

  /** A formatter whose only change is a run of spaces, newlines or semicolons in the
      code before the first comment passes the test. */
  lemma LayoutChangePasses(x: string, w: string, y: string)
    requires NoCommentIn(x) && JoinsCleanly(x, y)
    requires IsLayout(w)
    ensures RunTest(Some(x + y), Exited(0, x + w + y)) == Pass
  {
    NormalizeIgnoresLayoutRun(x, w, y);
  }

  /** The oracle does not notice a formatter that loses a trailing comment: the
      normal forms ignore comments altogether. */
  lemma DroppedCommentPasses(code: string, comment: string)
    requires NoCommentIn(code) && (code == [] || code[|code| - 1] != '/') && '\n' !in comment
    ensures RunTest(Some(code + "//" + comment), Exited(0, code)) == Pass
  {
    CommentRunsToEndOfText(code, comment);
    StripCommentsKeepsPlainPrefix(code, []);
    assert code + [] == code;
    assert StripComments([]) == [];
  }

  // ---------------------------------------------------------------------------
  // main

  const TestFilesDir: string := "../full_pyrope"

  /** `name.endswith(".prp")`. */
  predicate IsPrpName(name: string) {
    |name| >= 4 && name[|name| - 4..] == ".prp"
  }

  /** The names `endswith(".prp")` accepts are exactly those made of some stem followed by
      `.prp`; the stem may be empty, so a hidden file `.prp` is tested too. */
  lemma PrpNames(stem: string, name: string)
    ensures IsPrpName(stem + ".prp")
    ensures IsPrpName(name) ==> name == name[..|name| - 4] + ".prp"
    ensures IsPrpName(".prp")
  {
    var t := stem + ".prp";
    assert t[|t| - 4..] == ".prp";
    if IsPrpName(name) {
      assert name == name[..|name| - 4] + name[|name| - 4..];
    }
  }

  /** `os.path.join(dir, name)` with two components: an absolute `name` replaces the
      directory, and a separator is added unless `dir` is empty or already ends in one. */
  function Join(dir: string, name: string): string
  {
    if name != [] && name[0] == '/' then name
    else if dir == [] || dir[|dir| - 1] == '/' then dir + name
    else dir + "/" + name
  }

  /** The joined path ends with `name`; a relative `name` keeps `dir` in front, with one
      `/` between them when `dir` does not already end in one. */
  lemma JoinEndsWithName(dir: string, name: string)
    ensures var p := Join(dir, name); |name| <= |p| && p[|p| - |name|..] == name
    ensures name == [] || name[0] != '/' ==> dir <= Join(dir, name)
    ensures name != [] && name[0] != '/' && dir != [] && dir[|dir| - 1] != '/' ==>
              |Join(dir, name)| == |dir| + 1 + |name| && Join(dir, name)[|dir|] == '/'
  {
  }

  /** The list comprehension over `os.listdir`: the joined path of every `.prp` name, in
      listing order. */
  function PrpPaths(listing: seq<string>): (r: seq<string>)
    ensures |r| <= |listing|
    decreases |listing|
  {
    if listing == [] then []
    else (if IsPrpName(listing[0]) then [Join(TestFilesDir, listing[0])] else []) + PrpPaths(listing[1..])
  }

  lemma {:induction false} PrpPathsMembers(listing: seq<string>, p: string)
    ensures p in PrpPaths(listing) <==> exists name :: name in listing && IsPrpName(name) && p == Join(TestFilesDir, name)
    decreases |listing|
  {
    if listing != [] {
      PrpPathsMembers(listing[1..], p);
      assert listing[0] in listing;
      assert forall name :: name in listing[1..] ==> name in listing;
      if p in PrpPaths(listing) && !(IsPrpName(listing[0]) && p == Join(TestFilesDir, listing[0])) {
        assert p in PrpPaths(listing[1..]);
      }
      if exists name :: name in listing && IsPrpName(name) && p == Join(TestFilesDir, name) {
        var name :| name in listing && IsPrpName(name) && p == Join(TestFilesDir, name);
        if name != listing[0] {
          assert listing == [listing[0]] + listing[1..];
          assert name in listing[1..];
        }
      }
    }
  }

  /** `test_files` after `test_files.sort()`: the selected paths, rearranged into
      ascending order. */
  function TestFiles(listing: seq<string>): (files: seq<string>)
    ensures Sorted(files)
    ensures multiset(files) == multiset(PrpPaths(listing))
  {
    SortSorts(PrpPaths(listing));
    Sort(PrpPaths(listing))
  }

  /** A path is tested exactly when it joins the test directory with a `.prp` entry of
      the listing. */
  lemma TestFilesAreSortedPrpFiles(listing: seq<string>)
    ensures forall p :: p in TestFiles(listing) <==>
              exists name :: name in listing && IsPrpName(name) && p == Join(TestFilesDir, name)
  {
    forall p ensures p in TestFiles(listing) <==>
              exists name :: name in listing && IsPrpName(name) && p == Join(TestFilesDir, name)
    {
      assert p in TestFiles(listing) <==> p in multiset(TestFiles(listing));
      assert p in PrpPaths(listing) <==> p in multiset(PrpPaths(listing));
      PrpPathsMembers(listing, p);
    }
  }

  /** The verdict on each file, in test order. */
  function Outcomes(files: seq<string>, read: string -> Option<string>, format: string -> FormatterRun): seq<TestOutcome>
  {
    seq(|files|, i requires 0 <= i < |files| => RunTest(read(files[i]), format(files[i])))
  }

  /** How many of `outs` are `t`. */
  function CountOf(outs: seq<TestOutcome>, t: TestOutcome): (n: nat)
    ensures n <= |outs|
  {
    if outs == [] then 0 else CountOf(outs[..|outs| - 1], t) + (if outs[|outs| - 1] == t then 1 else 0)
  }

  /** Counting one more verdict. */
  lemma CountStep(outs: seq<TestOutcome>, k: nat)
    requires k < |outs|
    ensures forall t :: CountOf(outs[..k + 1], t) == CountOf(outs[..k], t) + (if outs[k] == t then 1 else 0)
    ensures outs[k] != Abort && Abort !in outs[..k] ==> Abort !in outs[..k + 1]
  {
    assert outs[..k + 1][..k] == outs[..k];
    assert outs[..k + 1] == outs[..k] + [outs[k]];
  }

  /** Without an abort, every test is counted once, as passed or as failed. */
  lemma {:induction false} CountsAddUp(outs: seq<TestOutcome>)
    requires Abort !in outs
    ensures CountOf(outs, Pass) + CountOf(outs, Fail) == |outs|
  {
    if outs != [] {
      assert forall t :: t in outs[..|outs| - 1] ==> t in outs;
      CountsAddUp(outs[..|outs| - 1]);
      assert outs[|outs| - 1] in outs;
    }
  }

  datatype SuiteResult =
    | MissingExecutable
    | MissingTestDir
    | Aborted(ran: nat)                                  // `sys.exit(1)` while running test `ran`
    | Summary(passed: nat, failed: nat, exitCode: int)   // the summary line and the exit status

  /** `main` of run_tests.py. */
  method RunSuite(exeExists: bool, dirExists: bool, listing: seq<string>,
                  read: string -> Option<string>, format: string -> FormatterRun) returns (r: SuiteResult)
    ensures !exeExists ==> r == MissingExecutable
    ensures exeExists && !dirExists ==> r == MissingTestDir
    ensures exeExists && dirExists ==>
              var outs := Outcomes(TestFiles(listing), read, format);
              (r.Summary? || r.Aborted?) &&
              (r.Summary? <==> Abort !in outs) &&
              (r.Summary? ==>
                 r.passed == CountOf(outs, Pass) && r.failed == CountOf(outs, Fail) &&
                 r.passed + r.failed == |TestFiles(listing)| &&
                 (r.exitCode == 1 <==> r.failed > 0) && (r.exitCode == 0 || r.exitCode == 1)) &&
              (r.Aborted? ==> r.ran < |outs| && outs[r.ran] == Abort && Abort !in outs[..r.ran])
  {
    if !exeExists {
      return MissingExecutable;
    }
    if !dirExists {
      return MissingTestDir;
    }
    var testFiles := TestFiles(listing);
    ghost var outs := Outcomes(testFiles, read, format);
    var passed, failed := 0, 0;
    var k := 0;
    while k < |testFiles|
      invariant 0 <= k <= |testFiles|
      invariant Abort !in outs[..k]
      invariant passed == CountOf(outs[..k], Pass) && failed == CountOf(outs[..k], Fail)
    {
      var file := testFiles[k];
      var verdict := RunTest(read(file), format(file));
      assert verdict == outs[k];
      if verdict == Abort {
        return Aborted(k);
      }
      CountStep(outs, k);
      if verdict == Pass {
        passed := passed + 1;
      } else {
        failed := failed + 1;
      }
      k := k + 1;
    }
    assert outs[..k] == outs;
    CountsAddUp(outs);
    r := Summary(passed, failed, if failed > 0 then 1 else 0);
  }
}
