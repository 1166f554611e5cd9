/** The verbatim printer of prpfmt.c: `traverse_and_print` walks the syntax tree depth
    first and, for each leaf, writes the source bytes between the previous leaf and
    this one followed by the leaf's own text, keeping a cursor `last_printed_end`. */
module Verbatim {

  import opened CStrings
  import opened SyntaxTree

  /** The source bytes `[last, start)` written before a leaf: nothing at all when the
      cursor is already at or past the leaf's start. */
  function Gap(src: seq<char>, last: nat, start: nat): (g: seq<char>)
    requires start <= |src|
    ensures g == [] <==> start <= last
    ensures |g| == if last < start then start - last else 0
    ensures forall i :: 0 <= i < |g| ==> g[i] == src[last + i]
  {
    if last < start then src[last..start] else []
  }

  /** What `get_node_text` followed by `fprintf("%s")` writes for a leaf. */
  function NodeText(src: seq<char>, n: Node): seq<char>
    requires InRange(n, |src|)
  {
    CStr(src[n.start..n.end])
  }

  /** A leaf's printed text is the start of its source range, up to the first NUL in it. */
  lemma NodeTextIsRangePrefix(src: seq<char>, n: Node)
    requires InRange(n, |src|)
    ensures NoNul(NodeText(src, n)) && NodeText(src, n) <= src[n.start..n.end]
    ensures |NodeText(src, n)| < n.end - n.start ==> src[n.start + |NodeText(src, n)|] == NUL
  {
    var t := NodeText(src, n);
    if |t| < n.end - n.start {
      assert src[n.start..n.end][|t|] == src[n.start + |t|];
    }
  }

  /** Text written and the cursor left behind. */
  datatype Emitted = Emitted(text: seq<char>, cursor: nat)

  predicate AllInRange(leaves: seq<Node>, len: nat) {
    forall k :: 0 <= k < |leaves| ==> InRange(leaves[k], len)
  }

  /** Output of visiting `leaves` in order with the cursor starting at `last`. The
      cursor ends at the end of the last leaf visited, whatever the order of the leaves. */
  function EmitLeaves(src: seq<char>, leaves: seq<Node>, last: nat): (e: Emitted)
    requires AllInRange(leaves, |src|)
    ensures e.cursor == if leaves == [] then last else leaves[|leaves| - 1].end
    decreases |leaves|
  {
    if leaves == [] then Emitted([], last)
    else
      var l := leaves[0];
      assert l in leaves;
      var rest := EmitLeaves(src, leaves[1..], l.end);
      Emitted(Gap(src, last, l.start) + NodeText(src, l) + rest.text, rest.cursor)
  }

  /** Output of `traverse_and_print` on a whole tree. */
  function EmitTree(src: seq<char>, n: Node, last: nat): Emitted
    requires WithinSource(n, |src|)
  {
    LeavesInRange(n, |src|);
    EmitLeaves(src, Leaves(n), last)
  }

  /** Output of `traverse_and_print` on the first `k` of a sequence of siblings, one
      after the other. */
  function EmitChildren(src: seq<char>, ns: seq<Node>, k: nat, last: nat): Emitted
    requires ForestWithinSource(ns, |src|) && k <= |ns|
  {
    ForestPrefix(ns, k, |src|);
    LeavesOfInRange(ns[..k], |src|);
    EmitLeaves(src, LeavesOf(ns[..k]), last)
  }

  lemma ForestPrefix(ns: seq<Node>, k: nat, len: nat)
    requires ForestWithinSource(ns, len) && k <= |ns|
    ensures ForestWithinSource(ns[..k], len)
  {
  }

  /** Leaves in range, joined, are still in range. */
  lemma AllInRangeAppend(a: seq<Node>, b: seq<Node>, len: nat)
    requires AllInRange(a, len) && AllInRange(b, len)
    ensures AllInRange(a + b, len)
  {
  }

  /** Visiting a first leaf writes its gap and text, then the rest from its end. */
  lemma EmitLeavesCons(src: seq<char>, leaves: seq<Node>, last: nat)
    requires AllInRange(leaves, |src|) && leaves != []
    ensures InRange(leaves[0], |src|) && AllInRange(leaves[1..], |src|)
    ensures EmitLeaves(src, leaves, last).text
         == Gap(src, last, leaves[0].start) + NodeText(src, leaves[0]) + EmitLeaves(src, leaves[1..], leaves[0].end).text
    ensures EmitLeaves(src, leaves, last).cursor == EmitLeaves(src, leaves[1..], leaves[0].end).cursor
  {
    assert leaves[0] in leaves;
  }

  /** Visiting `a` then `b` writes `a`'s output then `b`'s, `b` starting at `a`'s cursor. */
  lemma {:induction false} EmitLeavesAppend(src: seq<char>, a: seq<Node>, b: seq<Node>, last: nat)
    requires AllInRange(a, |src|) && AllInRange(b, |src|)
    ensures AllInRange(a + b, |src|)
    ensures EmitLeaves(src, a + b, last).text
         == EmitLeaves(src, a, last).text + EmitLeaves(src, b, EmitLeaves(src, a, last).cursor).text
    ensures EmitLeaves(src, a + b, last).cursor == EmitLeaves(src, b, EmitLeaves(src, a, last).cursor).cursor
    decreases |a|
  {
    AllInRangeAppend(a, b, |src|);
    if a == [] {
      assert a + b == b;
    } else {
      var ab := a + b;
      assert ab[0] == a[0] && ab[1..] == a[1..] + b;
      EmitLeavesCons(src, ab, last);
      EmitLeavesCons(src, a, last);
      EmitLeavesAppend(src, a[1..], b, a[0].end);
      var head := Gap(src, last, a[0].start) + NodeText(src, a[0]);
      var mid := EmitLeaves(src, a[1..], a[0].end);
      AppendAssoc(head, mid.text, EmitLeaves(src, b, mid.cursor).text);
    }
  }

  lemma AppendAssoc(x: seq<char>, y: seq<char>, z: seq<char>)
    ensures x + (y + z) == (x + y) + z
  {
  }

  /** With leaves in source order from the cursor on, and no NUL in the source, the
      output is exactly the source bytes from the cursor to the end of the last leaf,
      and the cursor never moves backwards. */
  lemma {:induction false} OrderedEmitIsSlice(src: seq<char>, leaves: seq<Node>, last: nat)
    requires AllInRange(leaves, |src|)
    requires NoNul(src)
    requires InSourceOrder(leaves, last)
    ensures last <= EmitLeaves(src, leaves, last).cursor
    ensures leaves == [] || EmitLeaves(src, leaves, last).cursor <= |src|
    ensures leaves != [] ==> EmitLeaves(src, leaves, last).text == src[last..EmitLeaves(src, leaves, last).cursor]
    ensures leaves == [] ==> EmitLeaves(src, leaves, last).text == []
    decreases |leaves|
  {
    if leaves != [] {
      var l := leaves[0];
      assert l in leaves;
      var rest := leaves[1..];
      OrderedTail(leaves, last);
      OrderedEmitIsSlice(src, rest, l.end);
      var e := EmitLeaves(src, rest, l.end);
      assert NoNul(src[l.start..l.end]) by {
        forall i | 0 <= i < l.end - l.start ensures src[l.start..l.end][i] != NUL {
          assert src[l.start..l.end][i] == src[l.start + i];
        }
      }
      assert NodeText(src, l) == src[l.start..l.end];
      assert Gap(src, last, l.start) == src[last..l.start];
      SliceJoin(src, last, l.start, l.end);
      if rest != [] {
        SliceJoin(src, last, l.end, e.cursor);
      }
    }
  }

  /** Dropping the first leaf keeps the rest in source order, from that leaf's end. */
  lemma OrderedTail(leaves: seq<Node>, last: nat)
    requires InSourceOrder(leaves, last) && leaves != []
    ensures InSourceOrder(leaves[1..], leaves[0].end)
  {
    var rest := leaves[1..];
    if |rest| > 0 { assert rest[0] == leaves[1]; }
    forall i | 0 <= i < |rest| - 1 ensures rest[i].end <= rest[i + 1].start {
      assert rest[i] == leaves[i + 1] && rest[i + 1] == leaves[i + 2];
    }
  }

  /** The headline property of the verbatim printer: started, as `main` starts it, with
      the cursor at 0 on a tree whose leaves are in source order, it writes a prefix of
      the source, ending with the last leaf; whatever follows the last leaf is not written. */
  lemma VerbatimOutputIsSourcePrefix(src: seq<char>, root: Node)
    requires WithinSource(root, |src|)
    requires NoNul(src)
    requires InSourceOrder(Leaves(root), 0)
    ensures EmitTree(src, root, 0).cursor <= |src|
    ensures |EmitTree(src, root, 0).text| == EmitTree(src, root, 0).cursor
    ensures EmitTree(src, root, 0).text <= src
    ensures EmitTree(src, root, 0).cursor == Leaves(root)[|Leaves(root)| - 1].end
  {
    LeavesInRange(root, |src|);
    OrderedEmitIsSlice(src, Leaves(root), 0);
  }

  /** After the first `i` leaves the cursor is the end of leaf `i - 1`, or still `last`. */
  lemma PrefixCursor(src: seq<char>, leaves: seq<Node>, last: nat, i: nat)
    requires AllInRange(leaves, |src|) && i <= |leaves|
    ensures AllInRange(leaves[..i], |src|)
    ensures EmitLeaves(src, leaves[..i], last).cursor == if i == 0 then last else leaves[i - 1].end
  {
    if i > 0 {
      assert leaves[..i][i - 1] == leaves[i - 1];
    }
  }

  /** With leaves in source order, the cursor after the first `i` leaves is never
      beyond the cursor after the first `j >= i` leaves. */
  lemma CursorNeverDecreases(src: seq<char>, leaves: seq<Node>, last: nat, i: nat, j: nat)
    requires AllInRange(leaves, |src|)
    requires InSourceOrder(leaves, last)
    requires i <= j <= |leaves|
    ensures AllInRange(leaves[..i], |src|) && AllInRange(leaves[..j], |src|)
    ensures EmitLeaves(src, leaves[..i], last).cursor <= EmitLeaves(src, leaves[..j], last).cursor
  {
    PrefixCursor(src, leaves, last, i);
    PrefixCursor(src, leaves, last, j);
    PrefixEndsOrdered(leaves, last, |src|, i, j);
  }

  /** The end of leaf `i - 1` (or `last` for `i == 0`) is at most that of leaf `j - 1`. */
  lemma PrefixEndsOrdered(leaves: seq<Node>, last: nat, len: nat, i: nat, j: nat)
    requires AllInRange(leaves, len)
    requires InSourceOrder(leaves, last)
    requires i <= j <= |leaves|
    ensures (if i == 0 then last else leaves[i - 1].end) <= (if j == 0 then last else leaves[j - 1].end)
  {
    if 0 < i < j {
      EndsNondecreasing(leaves, last, i - 1, j - 1);
    } else if i == 0 < j {
      EndsNondecreasing(leaves, last, 0, j - 1);
    }
  }

  /** `get_node_text`: a fresh buffer of `end - start + 1` bytes filled by `strncpy`
      from the source range and closed with a NUL. */
  method GetNodeText(node: Node, src: seq<char>) returns (text: array<char>)
    requires InRange(node, |src|)
    ensures fresh(text)
    ensures text.Length == node.end - node.start + 1
    ensures text[..node.end - node.start] == StrNCopy(src[node.start..node.end])
    ensures text[node.end - node.start] == NUL
    ensures NoNul(src[node.start..node.end]) ==> text[..node.end - node.start] == src[node.start..node.end]
  {
    var length := node.end - node.start;
    ghost var range := src[node.start..node.end];
    ghost var copy := StrNCopy(range);
    StrNCopyProperties(range);
    ghost var n := |CStr(range)|;
    text := new char[length + 1];
    var i := 0;
    while i < length && src[node.start + i] != NUL
      invariant 0 <= i <= n
      invariant forall m :: 0 <= m < i ==> text[m] == copy[m]
    {
      assert copy[i] == CStr(range)[i] == range[i];
      text[i] := src[node.start + i];
      i := i + 1;
    }
    while i < length
      invariant n <= i <= length
      invariant forall m :: 0 <= m < i ==> text[m] == copy[m]
    {
      text[i] := NUL;
      i := i + 1;
    }
    text[length] := NUL;
    assert text[..length] == copy;
  }

  /** The output stream and the cursor that `main` hands to `traverse_and_print`. */
  class Printer {
    const source: seq<char>
    var out: seq<char>
    var lastPrintedEnd: nat

    /** The cursor always points into the source. */
    ghost predicate Valid()
      reads this
    {
      lastPrintedEnd <= |source|
    }

    /** A fresh stream and `last_printed_end = 0`. */
    constructor (source: seq<char>)
      ensures Valid()
      ensures this.source == source && out == [] && lastPrintedEnd == 0
    {
      this.source := source;
      out := [];
      lastPrintedEnd := 0;
    }

    /** The gap loop of `traverse_and_print`: writes the source bytes from the cursor up
        to `start`, one at a time; the cursor itself is left alone. */
    method PrintGap(start: nat)
      requires Valid() && start <= |source|
      modifies this`out
      ensures out == old(out) + Gap(source, lastPrintedEnd, start)
    {
      var i := lastPrintedEnd;
      while i < start
        invariant lastPrintedEnd <= i <= |source|
        invariant i <= start || i == lastPrintedEnd
        invariant out == old(out) + source[lastPrintedEnd..i]
      {
        out := out + [source[i]];
        i := i + 1;
        assert source[lastPrintedEnd..i] == source[lastPrintedEnd..i - 1] + [source[i - 1]];
      }
    }

    /** The leaf step of `traverse_and_print`: the gap since the cursor, then the
        leaf's text; the cursor moves to the leaf's end. */
    method PrintLeaf(node: Node)
      requires Valid() && InRange(node, |source|)
      modifies this
      ensures Valid()
      ensures out == old(out) + EmitLeaves(source, [node], old(lastPrintedEnd)).text
      ensures lastPrintedEnd == node.end
    {
      ghost var cursor := lastPrintedEnd;
      PrintGap(node.start);
      var text := GetNodeText(node, source);
      PrintedNodeText(source, node, text[..]);
      out := out + CStr(text[..]);
      lastPrintedEnd := node.end;
      OneLeaf(source, node, cursor);
    }

    /** `traverse_and_print`: appends the tree's verbatim output to the stream and
        moves the cursor to the end of the last leaf. A leaf is printed; the loop over
        the children, which does nothing for a leaf, is `PrintChildren`. */
    method TraverseAndPrint(node: Node)
      requires Valid() && WithinSource(node, |source|)
      modifies this
      ensures Valid()
      ensures out == old(out) + EmitTree(source, node, old(lastPrintedEnd)).text
      ensures lastPrintedEnd == EmitTree(source, node, old(lastPrintedEnd)).cursor
      decreases node, 1
    {
      if |node.children| == 0 {
        LeafTree(source, node, lastPrintedEnd);
        PrintLeaf(node);
      } else {
        InnerTree(source, node, lastPrintedEnd);
        PrintChildren(node);
      }
    }

    /** The child loop of `traverse_and_print`: each child in turn, each starting at
        the cursor the previous one left. */
    method PrintChildren(node: Node)
      requires Valid() && ForestWithinSource(node.children, |source|)
      modifies this
      ensures Valid()
      ensures out == old(out) + EmitChildren(source, node.children, |node.children|, old(lastPrintedEnd)).text
      ensures lastPrintedEnd == EmitChildren(source, node.children, |node.children|, old(lastPrintedEnd)).cursor
      decreases node, 0
    {
      ghost var start := lastPrintedEnd;
      var k := 0;
      while k < |node.children|
        invariant 0 <= k <= |node.children|
        invariant Valid()
        invariant out == old(out) + EmitChildren(source, node.children, k, start).text
        invariant lastPrintedEnd == EmitChildren(source, node.children, k, start).cursor
      {
        var child := node.children[k];
        EmitChildrenStep(source, node.children, k, start);
        ghost var before := EmitChildren(source, node.children, k, start);
        ghost var written := out;
        TraverseAndPrint(child);
        AppendAssoc(old(out), before.text, EmitTree(source, child, before.cursor).text);
        assert out == written + EmitTree(source, child, before.cursor).text;
        k := k + 1;
      }
    }
  }

  /** A leaf's output is that of the leaf alone. */
  lemma LeafTree(src: seq<char>, n: Node, last: nat)
    requires WithinSource(n, |src|) && IsLeaf(n)
    ensures InRange(n, |src|) && AllInRange([n], |src|)
    ensures EmitTree(src, n, last) == EmitLeaves(src, [n], last)
  {
  }

  /** An inner node writes nothing of its own: its output is that of all its children,
      one after the other, each starting where the previous one left the cursor. */
  lemma InnerTree(src: seq<char>, n: Node, last: nat)
    requires WithinSource(n, |src|) && !IsLeaf(n)
    ensures ForestWithinSource(n.children, |src|)
    ensures EmitTree(src, n, last) == EmitChildren(src, n.children, |n.children|, last)
  {
    assert n.children[..|n.children|] == n.children;
  }

  /** `%s` on the buffer `get_node_text` returns prints exactly the leaf's text. */
  lemma PrintedNodeText(src: seq<char>, n: Node, buf: seq<char>)
    requires InRange(n, |src|)
    requires |buf| == n.end - n.start + 1
    requires buf[..n.end - n.start] == StrNCopy(src[n.start..n.end]) && buf[n.end - n.start] == NUL
    ensures CStr(buf) == NodeText(src, n)
  {
    StrNCopyProperties(src[n.start..n.end]);
    assert buf == buf[..n.end - n.start] + [NUL];
  }

  /** A single leaf writes its gap, then its text. */
  lemma OneLeaf(src: seq<char>, l: Node, last: nat)
    requires InRange(l, |src|)
    ensures AllInRange([l], |src|)
    ensures EmitLeaves(src, [l], last).text == Gap(src, last, l.start) + NodeText(src, l)
  {
    assert [l][1..] == [];
  }

  /** `src[a..b] + src[b..c] == src[a..c]`. */
  lemma SliceJoin(src: seq<char>, a: nat, b: nat, c: nat)
    requires a <= b <= c <= |src|
    ensures src[a..b] + src[b..c] == src[a..c]
  {
  }

  /** Visiting the first `k + 1` siblings is visiting the first `k`, then sibling `k`. */
  lemma EmitChildrenStep(src: seq<char>, ns: seq<Node>, k: nat, last: nat)
    requires ForestWithinSource(ns, |src|) && k < |ns|
    ensures WithinSource(ns[k], |src|)
    ensures var before := EmitChildren(src, ns, k, last);
            EmitChildren(src, ns, k + 1, last)
              == Emitted(before.text + EmitTree(src, ns[k], before.cursor).text, EmitTree(src, ns[k], before.cursor).cursor)
  {
    ForestPrefix(ns, k, |src|);
    ForestPrefix(ns, k + 1, |src|);
    assert ns[..k + 1] == ns[..k] + [ns[k]];
    assert ns[k] in ns;
    LeavesOfAppend(ns[..k], ns[k]);
    LeavesOfInRange(ns[..k], |src|);
    LeavesInRange(ns[k], |src|);
    EmitLeavesAppend(src, LeavesOf(ns[..k]), Leaves(ns[k]), last);
  }
}
