/** How the C driver sees character buffers: a string ends at its first NUL byte
    (`strlen`, `%s`), and `strncpy` copies up to a NUL and pads the rest with NULs. */
module CStrings {

  const NUL: char := '\0'

  predicate NoNul(s: seq<char>) {
    forall i :: 0 <= i < |s| ==> s[i] != NUL
  }

  /** Index of the first NUL in `s`, or `|s|` when there is none. */
  function NulIndex(s: seq<char>): (k: nat)
    ensures k <= |s|
    ensures NoNul(s[..k])
    ensures k < |s| ==> s[k] == NUL
  {
    if s == [] || s[0] == NUL then 0
    else
      var k' := NulIndex(s[1..]);
      assert s[..1 + k'] == [s[0]] + s[1..][..k'];
      1 + k'
  }

  /** The string a C routine sees in the buffer `s`: everything before the first NUL. */
  function CStr(s: seq<char>): (r: seq<char>)
    ensures NoNul(r)
    ensures r <= s
    ensures |r| < |s| ==> s[|r|] == NUL
    ensures NoNul(s) ==> r == s
  {
    s[..NulIndex(s)]
  }

  /** `n` NUL bytes. */
  function NulPad(n: nat): (r: seq<char>)
    ensures |r| == n
    ensures forall i :: 0 <= i < n ==> r[i] == NUL
  {
    if n == 0 then [] else NulPad(n - 1) + [NUL]
  }

  /** What `strncpy(dst, s, |s|)` leaves in the first `|s|` bytes of `dst`. */
  function StrNCopy(s: seq<char>): seq<char>
  {
    CStr(s) + NulPad(|s| - |CStr(s)|)
  }

  /** The copy has the length asked for, starts with the string a C reader sees in the
      original and is NUL from there on, so a C reader sees the same string in it; a
      range without NUL is copied unchanged. */
  lemma StrNCopyProperties(s: seq<char>)
    ensures |StrNCopy(s)| == |s|
    ensures StrNCopy(s)[..|CStr(s)|] == CStr(s)
    ensures forall i :: |CStr(s)| <= i < |s| ==> StrNCopy(s)[i] == NUL
    ensures CStr(StrNCopy(s) + [NUL]) == CStr(s)
    ensures NoNul(s) ==> StrNCopy(s) == s
  {
    var c := CStr(s);
    var t := StrNCopy(s) + [NUL];
    assert t == c + NulPad(|s| - |c|) + [NUL];
    assert t[|c|] == NUL;
    assert t[..|c|] == c;
    CStrOfTerminated(c, NulPad(|s| - |c|) + [NUL]);
  }

  /** A NUL-free prefix followed by a NUL is exactly what a C reader sees. */
  lemma CStrOfTerminated(a: seq<char>, b: seq<char>)
    requires NoNul(a)
    requires b != [] && b[0] == NUL
    ensures CStr(a + b) == a
  {
    var k := NulIndex(a + b);
    assert (a + b)[|a|] == NUL;
  }
}
