/** The concrete syntax tree the parser hands to the printers: every node has a byte
    range `[start, end)` into the source and its children in source order. Only the
    parts of a tree-sitter node the printers read are kept. */
module SyntaxTree {

  import opened Wrappers

  /** Tree-sitter marks nodes it could not fit into the grammar (ERROR) and nodes it
      invented to complete a construct (MISSING). */
  datatype Status = Parsed | ErrorNode | MissingNode

  datatype Node = Node(status: Status, start: nat, end: nat, children: seq<Node>)

  predicate IsLeaf(n: Node) {
    |n.children| == 0
  }

  predicate InRange(n: Node, len: nat) {
    n.start <= n.end <= len
  }

  /** Every range in the tree lies inside a source of length `len`; the parser
      guarantees this for the trees it builds. */
  predicate WithinSource(n: Node, len: nat)
    decreases n
  {
    InRange(n, len) && forall c :: c in n.children ==> WithinSource(c, len)
  }

  predicate ForestWithinSource(ns: seq<Node>, len: nat) {
    forall c :: c in ns ==> WithinSource(c, len)
  }

  /** `ts_node_has_error`: the node or one of its descendants is an ERROR or MISSING node. */
  predicate HasError(n: Node)
    decreases n
  {
    n.status != Parsed || exists c :: c in n.children && HasError(c)
  }

  /** The node reached from `n` by following the child indices in `path`, if there is one. */
  function At(n: Node, path: seq<nat>): Option<Node>
    decreases |path|
  {
    if path == [] then Some(n)
    else if path[0] < |n.children| then At(n.children[path[0]], path[1..])
    else None
  }

  /** `ts_node_has_error` holds exactly when some node reachable from `n`, `n` included,
      is an ERROR or MISSING node. */
  lemma HasErrorIffFlaggedNode(n: Node)
    ensures HasError(n) <==> exists path :: At(n, path).Some? && At(n, path).value.status != Parsed
  {
    if HasError(n) {
      ErrorHasFlaggedNode(n);
    }
    if exists path :: At(n, path).Some? && At(n, path).value.status != Parsed {
      var path :| At(n, path).Some? && At(n, path).value.status != Parsed;
      FlaggedNodeHasError(n, path);
    }
  }

  lemma {:induction false} ErrorHasFlaggedNode(n: Node)
    requires HasError(n)
    ensures exists path :: At(n, path).Some? && At(n, path).value.status != Parsed
    decreases n
  {
    if n.status != Parsed {
      assert At(n, []) == Some(n);
    } else {
      var c :| c in n.children && HasError(c);
      var k :| 0 <= k < |n.children| && n.children[k] == c;
      ErrorHasFlaggedNode(c);
      var p :| At(c, p).Some? && At(c, p).value.status != Parsed;
      assert ([k] + p)[1..] == p;
      assert At(n, [k] + p) == At(c, p);
    }
  }

  lemma {:induction false} FlaggedNodeHasError(n: Node, path: seq<nat>)
    requires At(n, path).Some? && At(n, path).value.status != Parsed
    ensures HasError(n)
    decreases |path|
  {
    if path != [] {
      var c := n.children[path[0]];
      FlaggedNodeHasError(c, path[1..]);
      assert c in n.children;
    }
  }

  /** The leaves of a tree, depth first and left to right. */
  function Leaves(n: Node): (ls: seq<Node>)
    ensures |ls| > 0
    ensures forall k :: 0 <= k < |ls| ==> IsLeaf(ls[k])
    decreases n, 1
  {
    if IsLeaf(n) then [n] else LeavesOf(n.children)
  }

  /** The leaves of a sequence of siblings, in sibling order. */
  function LeavesOf(ns: seq<Node>): (ls: seq<Node>)
    ensures ns != [] <==> |ls| > 0
    ensures forall k :: 0 <= k < |ls| ==> IsLeaf(ls[k])
    decreases ns, 0
  {
    if ns == [] then [] else Leaves(ns[0]) + LeavesOf(ns[1..])
  }

  /** Leaves appear in source order without overlapping, and none starts before `from`. */
  predicate InSourceOrder(leaves: seq<Node>, from: nat) {
    (|leaves| > 0 ==> from <= leaves[0].start) &&
    forall i, j :: 0 <= i < |leaves| && j == i + 1 && j < |leaves| ==> leaves[i].end <= leaves[j].start
  }

  /** With leaves in source order, leaf ends never decrease along the sequence. */
  lemma {:induction false} EndsNondecreasing(leaves: seq<Node>, from: nat, i: nat, j: nat)
    requires InSourceOrder(leaves, from)
    requires forall k :: 0 <= k < |leaves| ==> leaves[k].start <= leaves[k].end
    requires i <= j < |leaves|
    ensures leaves[i].end <= leaves[j].end
    decreases j - i
  {
    if i < j {
      assert leaves[i].end <= leaves[i + 1].start;
      EndsNondecreasing(leaves, from, i + 1, j);
    }
  }

  lemma {:induction false} LeavesInRange(n: Node, len: nat)
    requires WithinSource(n, len)
    ensures forall k :: 0 <= k < |Leaves(n)| ==> InRange(Leaves(n)[k], len)
    decreases n, 1
  {
    if !IsLeaf(n) {
      LeavesOfInRange(n.children, len);
    }
  }

  lemma {:induction false} LeavesOfInRange(ns: seq<Node>, len: nat)
    requires ForestWithinSource(ns, len)
    ensures forall k :: 0 <= k < |LeavesOf(ns)| ==> InRange(LeavesOf(ns)[k], len)
    decreases ns, 0
  {
    if ns != [] {
      LeavesInRange(ns[0], len);
      LeavesOfInRange(ns[1..], len);
    }
  }

  /** Visiting siblings one more at a time adds that sibling's leaves at the end. */
  lemma {:induction false} LeavesOfAppend(ns: seq<Node>, n: Node)
    ensures LeavesOf(ns + [n]) == LeavesOf(ns) + Leaves(n)
  {
    if ns == [] {
      assert [n][1..] == [];
    } else {
      assert (ns + [n])[1..] == ns[1..] + [n];
      LeavesOfAppend(ns[1..], n);
    }
  }
}
