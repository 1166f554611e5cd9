/** Character classes shared by the Python tools. */
module Text {

  /** The ASCII characters that Python's `\s` and `str.lstrip()` treat as whitespace:
      space, tab, newline, carriage return, vertical tab and form feed. */
  predicate IsSpace(c: char) {
    c == ' ' || c == '\t' || c == '\n' || c == '\r' || c == '\U{000B}' || c == '\U{000C}'
  }

  /** The characters counted in `m`, with every whitespace character taken out. */
  function WithoutSpaces(m: multiset<char>): multiset<char> {
    m[' ' := 0]['\t' := 0]['\n' := 0]['\r' := 0]['\U{000B}' := 0]['\U{000C}' := 0]
  }

  lemma WithoutSpacesCounts(m: multiset<char>, c: char)
    ensures WithoutSpaces(m)[c] == if IsSpace(c) then 0 else m[c]
  {
  }

  /** One more character counts unless it is whitespace. */
  lemma WithoutSpacesAddOne(c: char, m: multiset<char>)
    ensures WithoutSpaces(multiset{c} + m) == if IsSpace(c) then WithoutSpaces(m) else multiset{c} + WithoutSpaces(m)
  {
    var lhs := WithoutSpaces(multiset{c} + m);
    var rhs := if IsSpace(c) then WithoutSpaces(m) else multiset{c} + WithoutSpaces(m);
    forall x ensures lhs[x] == rhs[x] {
      WithoutSpacesCounts(multiset{c} + m, x);
      WithoutSpacesCounts(m, x);
    }
  }
}
