/** The `Node` objects the compressor links into a Huffman tree. */
module Nodes {
  import opened Errors
  import opened Lists
  import opened Trees

  function Max(a: nat, b: nat): nat { if a < b then b else a }

  /** A tree node. A leaf carries a symbol; a parent made by the merge step
      carries none and points to its two children. The links and counts
      never change once a node exists; only the `code` label is assigned
      later. */
  class Node {
    const ch: Option<char>
    const frequency: int
    const left: Node?
    const right: Node?
    var code: string
    /** One more than the taller child: makes the structure provably finite. */
    ghost const height: nat

    /** `Node(char, frequency, left, right)`; the code starts empty. */
    constructor (ch: Option<char>, frequency: int, left: Node?, right: Node?)
      ensures this.ch == ch && this.frequency == frequency
      ensures this.left == left && this.right == right
      ensures code == ""
      ensures (left == null || left.Finite()) && (right == null || right.Finite()) ==> Finite()
      ensures ch.Some? && left == null && right == null ==>
        Valid() && Tree() == Leaf(ch.value, frequency)
      ensures ch.None? && left != null && right != null && left.Valid() && right.Valid() ==>
        Valid() && Tree() == Internal(frequency, left.Tree(), right.Tree())
    {
      this.ch := ch;
      this.frequency := frequency;
      this.left := left;
      this.right := right;
      code := "";
      height := 1 + Max(if left == null then 0 else left.height, if right == null then 0 else right.height);
    }

    /** `Node()` with every argument left at its default. */
    constructor Default()
      ensures ch == None && frequency == 0 && left == null && right == null && code == ""
      ensures Finite()
    {
      ch := None;
      frequency := 0;
      left := null;
      right := null;
      code := "";
      height := 1;
    }

    /** Following links always ends: every child is lower than its parent. */
    ghost predicate Finite()
      decreases height
    {
      (left != null ==> left.height < height && left.Finite()) &&
      (right != null ==> right.height < height && right.Finite())
    }

    /** The shape the compressor builds: a leaf has a symbol and no
        children, a parent has no symbol and two children. */
    ghost predicate Valid()
      decreases height
    {
      match ch
      case Some(_) => left == null && right == null
      case None =>
        left != null && right != null &&
        left.height < height && right.height < height &&
        left.Valid() && right.Valid()
    }

    /** The value this node and everything below it stand for. */
    ghost function Tree(): HTree
      requires Valid()
      decreases height
    {
      if ch.Some? then Leaf(ch.value, frequency)
      else Internal(frequency, left.Tree(), right.Tree())
    }

    /** `__lt__`: a node is smaller than another when its count is. The
        comparison is asymmetric, and of two nodes neither of which is
        smaller, the counts agree. */
    function Less(other: Node): (r: bool)
      ensures r ==> !(other.frequency < frequency)
      ensures !r && !(other.frequency < frequency) ==> frequency == other.frequency
    {
      frequency < other.frequency
    }
  }

  /** The sort key `lambda node: node.frequency`. */
  function NodeFrequency(n: Node): int { n.frequency }

  function Identity(n: Node): Node { n }

  lemma {:induction false} ValidFinite(n: Node)
    requires n.Valid()
    ensures n.Finite()
    ensures n.Tree().freq == n.frequency
    decreases n.height
  {
    if n.ch.None? {
      ValidFinite(n.left);
      ValidFinite(n.right);
    }
  }

  /** `__lt__` is a strict order, and two nodes neither of which is smaller
      than the other have equal counts; so sorting by the key `frequency`
      leaves no node smaller than one before it. */
  lemma LessOrder(a: Node, b: Node, c: Node, nodes: seq<Node>)
    ensures !a.Less(a)
    ensures a.Less(b) ==> !b.Less(a)
    ensures a.Less(b) && b.Less(c) ==> a.Less(c)
    ensures !a.Less(b) && !b.Less(a) ==> a.frequency == b.frequency
    ensures SortedBy(nodes, NodeFrequency) <==>
      forall i, j :: 0 <= i < j < |nodes| ==> !nodes[j].Less(nodes[i])
  {
  }

  /** The nodes stand, position by position, for the trees. */
  ghost predicate Represents(nodes: seq<Node>, ts: seq<HTree>) {
    |nodes| == |ts| &&
    forall k :: 0 <= k < |nodes| ==> nodes[k].Valid() && nodes[k].Tree() == ts[k]
  }

  /** No node occurs twice. */
  ghost predicate DistinctNodes(nodes: seq<Node>) {
    InjectiveOn(nodes, Identity)
  }

  lemma RepresentsTail(s: seq<Node>, ts: seq<HTree>)
    requires Represents(s, ts) && s != []
    ensures s[0].Valid() && s[0].Tree() == ts[0]
    ensures Represents(s[1..], ts[1..])
  {
    forall k | 0 <= k < |s[1..]| ensures s[1..][k].Valid() && s[1..][k].Tree() == ts[1..][k] {
      assert s[k + 1].Valid() && s[k + 1].Tree() == ts[k + 1];
    }
  }

  lemma RepresentsCons(x: Node, s: seq<Node>, tx: HTree, ts: seq<HTree>)
    requires Represents(s, ts) && x.Valid() && x.Tree() == tx
    ensures Represents([x] + s, [tx] + ts)
  {
    forall k | 0 <= k < |s| + 1 ensures ([x] + s)[k].Valid() && ([x] + s)[k].Tree() == ([tx] + ts)[k] {
      if k > 0 {
        assert ([x] + s)[k] == s[k - 1] && ([tx] + ts)[k] == ts[k - 1];
      }
    }
  }

  lemma {:induction false} RepresentsInsert(x: Node, s: seq<Node>, tx: HTree, ts: seq<HTree>)
    requires Represents(s, ts) && x.Valid() && x.Tree() == tx
    ensures Represents(Insert(x, s, NodeFrequency), Insert(tx, ts, TreeFreq))
  {
    ValidFinite(x);
    if s == [] {
      RepresentsCons(x, s, tx, ts);
    } else {
      RepresentsTail(s, ts);
      ValidFinite(s[0]);
      if NodeFrequency(x) <= NodeFrequency(s[0]) {
        RepresentsCons(x, s, tx, ts);
      } else {
        RepresentsInsert(x, s[1..], tx, ts[1..]);
        RepresentsCons(s[0], Insert(x, s[1..], NodeFrequency), ts[0], Insert(tx, ts[1..], TreeFreq));
      }
    }
  }

  /** Sorting nodes by count sorts the trees they stand for the same way:
      the sort is stable and the key agrees. */
  lemma {:induction false} RepresentsSortBy(s: seq<Node>, ts: seq<HTree>)
    requires Represents(s, ts)
    ensures Represents(SortBy(s, NodeFrequency), SortBy(ts, TreeFreq))
  {
    if s != [] {
      RepresentsTail(s, ts);
      RepresentsSortBy(s[1..], ts[1..]);
      RepresentsInsert(s[0], SortBy(s[1..], NodeFrequency), ts[0], SortBy(ts[1..], TreeFreq));
    }
  }

  /** What `__build_encoding_table(n, code)` adds to the table, following
      the source's tests: a node with a symbol records it, any other node
      descends into whichever children it has, left before right. */
  ghost function NodeTable(n: Node, code: string): map<char, string>
    requires n.Finite()
    decreases n.height
  {
    if n.ch.Some? then map[n.ch.value := code]
    else
      (if n.left != null then NodeTable(n.left, code + "0") else map[]) +
      (if n.right != null then NodeTable(n.right, code + "1") else map[])
  }

  /** On a tree the compressor builds, the table is the code table of the
      tree it stands for. */
  lemma {:induction false} NodeTableCodes(n: Node, code: string)
    requires n.Valid()
    ensures n.Finite()
    ensures NodeTable(n, code) == Codes(n.Tree(), code)
    decreases n.height
  {
    ValidFinite(n);
    if n.ch.None? {
      NodeTableCodes(n.left, code + "0");
      NodeTableCodes(n.right, code + "1");
    }
  }

  // ---------------------------------------------------------------------
  // Choosing the two nodes to merge

  /** Among the first `n` nodes, `i1` is the first position of the smallest
      count, and `i2` the first position other than `i1` of the smallest
      count among the others. */
  predicate TwoSmallestIn(nodes: seq<Node>, n: int, i1: int, i2: int) {
    0 <= n <= |nodes| && 0 <= i1 < n && 0 <= i2 < n && i1 != i2 &&
    (forall k :: 0 <= k < n ==> nodes[i1].frequency <= nodes[k].frequency) &&
    (forall k :: 0 <= k < i1 ==> nodes[i1].frequency < nodes[k].frequency) &&
    (forall k :: 0 <= k < n && k != i1 ==> nodes[i2].frequency <= nodes[k].frequency) &&
    (forall k :: 0 <= k < i2 && k != i1 ==> nodes[i2].frequency < nodes[k].frequency)
  }

  predicate TwoSmallest(nodes: seq<Node>, i1: int, i2: int) {
    TwoSmallestIn(nodes, |nodes|, i1, i2)
  }

  /** The choice is determined by the list. */
  lemma TwoSmallestUnique(nodes: seq<Node>, i1: int, i2: int, j1: int, j2: int)
    requires TwoSmallest(nodes, i1, i2) && TwoSmallest(nodes, j1, j2)
    ensures i1 == j1 && i2 == j2
  {
    assert nodes[i1].frequency == nodes[j1].frequency;
    assert i1 == j1;
    assert nodes[i2].frequency == nodes[j2].frequency;
  }

  /** On a list sorted by count, the two chosen are the first two. */
  lemma TwoSmallestOfSorted(nodes: seq<Node>)
    requires |nodes| >= 2 && SortedBy(nodes, NodeFrequency)
    ensures TwoSmallest(nodes, 0, 1)
  {
    assert forall k :: 0 <= k < |nodes| ==> NodeFrequency(nodes[0]) <= NodeFrequency(nodes[k]);
    assert forall k :: 1 <= k < |nodes| ==> NodeFrequency(nodes[1]) <= NodeFrequency(nodes[k]);
  }
}
