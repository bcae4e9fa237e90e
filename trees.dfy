/** Huffman trees as values: the shape the node objects of the compressor
    build, the merge loop of `__create_tree` stated on such values, the
    encoding table `__build_encoding_table` derives, and the concatenation of
    codes `__encode` produces, with a decoder that shows the codes can be
    read back. */
module Trees {
  import opened Errors
  import opened Lists
  import opened Frequency
  import opened Bits

  /** A leaf holds a symbol and its count; an internal node holds the
      summed count and exactly two children. */
  datatype HTree =
    | Leaf(ch: char, freq: int)
    | Internal(freq: int, left: HTree, right: HTree)

  /** The sort key `lambda node: node.frequency`. */
  function TreeFreq(t: HTree): int { t.freq }

  /** The symbols at the leaves, left to right. */
  function Leaves(t: HTree): seq<char> {
    match t
    case Leaf(c, _) => [c]
    case Internal(_, l, r) => Leaves(l) + Leaves(r)
  }

  function LeafBag(t: HTree): multiset<char> { multiset(Leaves(t)) }

  /** No symbol sits at two leaves. */
  ghost predicate DistinctLeaves(t: HTree) {
    forall c :: multiset(Leaves(t))[c] <= 1
  }

  /** Every internal node's count is the sum of its children's. */
  ghost predicate WellWeighted(t: HTree) {
    match t
    case Leaf(_, _) => true
    case Internal(f, l, r) => f == l.freq + r.freq && WellWeighted(l) && WellWeighted(r)
  }

  /** The parent `__merge_nodes` makes of `a` (left, label 0) and `b`
      (right, label 1). */
  function Merge(a: HTree, b: HTree): HTree {
    Internal(a.freq + b.freq, a, b)
  }

  /** One round of the loop of `__create_tree`: stable sort by count, merge
      the first two, drop them, and append the parent. */
  function Step(ts: seq<HTree>): (r: seq<HTree>)
    requires |ts| >= 2
    ensures |r| == |ts| - 1
  {
    var s := SortBy(ts, TreeFreq);
    s[2..] + [Merge(s[0], s[1])]
  }

  /** The working list after the loop of `__create_tree` has run to its end. */
  function Huffman(ts: seq<HTree>): (r: seq<HTree>)
    ensures |r| == if ts == [] then 0 else 1
    decreases |ts|
  {
    if |ts| <= 1 then ts else Huffman(Step(ts))
  }

  /** One leaf per dictionary entry, in dictionary order. */
  function InitialForest(d: seq<Entry>): (r: seq<HTree>)
    ensures |r| == |d|
    ensures forall i :: 0 <= i < |d| ==> r[i] == Leaf(d[i].ch, d[i].freq)
  {
    if d == [] then [] else [Leaf(d[0].ch, d[0].freq)] + InitialForest(d[1..])
  }

  /** The tree `__create_tree` returns for a non-empty dictionary. */
  function HuffmanTree(d: seq<Entry>): HTree
    requires d != []
  {
    Huffman(InitialForest(d))[0]
  }

  lemma StepWeight(ts: seq<HTree>)
    requires |ts| >= 2
    ensures SumOf(Step(ts), TreeFreq) == SumOf(ts, TreeFreq)
  {
    var s := SortBy(ts, TreeFreq);
    var m, rest := Merge(s[0], s[1]), s[2..];
    SumOfSortBy(ts, TreeFreq, TreeFreq);
    SumOfFirstTwo(s, TreeFreq);
    SumOfAppend(rest, [m], TreeFreq);
    MergeSum(s[0], s[1]);
  }

  lemma MergeSum(a: HTree, b: HTree)
    ensures SumOf([Merge(a, b)], TreeFreq) == a.freq + b.freq
  {
    assert [Merge(a, b)][1..] == [];
  }

  lemma StepLeaves(ts: seq<HTree>)
    requires |ts| >= 2
    ensures BagOf(Step(ts), LeafBag) == BagOf(ts, LeafBag)
  {
    var s := SortBy(ts, TreeFreq);
    var m, rest := Merge(s[0], s[1]), s[2..];
    BagOfSortBy(ts, TreeFreq, LeafBag);
    BagOfFirstTwo(s, LeafBag);
    BagOfAppend(rest, [m], LeafBag);
    MergeBag(s[0], s[1]);
  }

  lemma MergeBag(a: HTree, b: HTree)
    ensures BagOf([Merge(a, b)], LeafBag) == LeafBag(a) + LeafBag(b)
  {
    assert [Merge(a, b)][1..] == [];
  }

  lemma StepWellWeighted(ts: seq<HTree>)
    requires |ts| >= 2
    requires forall t :: t in ts ==> WellWeighted(t)
    ensures forall t :: t in Step(ts) ==> WellWeighted(t)
  {
    var s := SortBy(ts, TreeFreq);
    forall t | t in s ensures WellWeighted(t) {
      assert t in multiset(s);
    }
    assert s[0] in s && s[1] in s;
    forall t | t in Step(ts) ensures WellWeighted(t) {
      if t != Merge(s[0], s[1]) {
        assert t in s[2..];
      }
    }
  }

  /** The loop keeps the total count and the multiset of leaf symbols, and
      every tree it builds is weighted by its children. */
  lemma {:induction false} HuffmanInvariant(ts: seq<HTree>)
    requires ts != []
    requires forall t :: t in ts ==> WellWeighted(t)
    ensures Huffman(ts)[0].freq == SumOf(ts, TreeFreq)
    ensures LeafBag(Huffman(ts)[0]) == BagOf(ts, LeafBag)
    ensures WellWeighted(Huffman(ts)[0])
    decreases |ts|
  {
    if |ts| == 1 {
      assert ts[1..] == [];
      assert ts[0] in ts;
    } else {
      StepWeight(ts);
      StepLeaves(ts);
      StepWellWeighted(ts);
      HuffmanInvariant(Step(ts));
    }
  }

  lemma {:induction false} InitialForestSums(d: seq<Entry>)
    ensures SumOf(InitialForest(d), TreeFreq) == SumOf(d, EntryFreq)
    ensures BagOf(InitialForest(d), LeafBag) == multiset(Keys(d))
    ensures forall t :: t in InitialForest(d) ==> WellWeighted(t)
  {
    if d != [] {
      InitialForestSums(d[1..]);
      assert InitialForest(d)[1..] == InitialForest(d[1..]);
    }
  }

  lemma {:induction false} KeysDistinct(d: seq<Entry>)
    requires DistinctKeys(d)
    ensures forall c :: multiset(Keys(d))[c] <= 1
  {
    if d != [] {
      assert DistinctKeys(d[1..]);
      KeysDistinct(d[1..]);
      KeysMember(d[1..], d[0].ch);
      forall e | e in d[1..] ensures e.ch != d[0].ch {
        var m :| 0 <= m < |d[1..]| && d[1..][m] == e;
        assert d[m + 1] == e;
      }
      assert Keys(d) == [d[0].ch] + Keys(d[1..]);
    }
  }

  /** What `__create_tree` promises for a dictionary with distinct keys: the
      root's count is the sum of all counts, the leaves are exactly the
      dictionary's symbols (each once, so there are as many leaves as
      symbols), and each parent's count is the sum of its children's. */
  lemma HuffmanTreeSpec(d: seq<Entry>)
    requires d != [] && DistinctKeys(d)
    ensures HuffmanTree(d).freq == SumOf(d, EntryFreq)
    ensures multiset(Leaves(HuffmanTree(d))) == multiset(Keys(d))
    ensures |Leaves(HuffmanTree(d))| == |d|
    ensures DistinctLeaves(HuffmanTree(d))
    ensures WellWeighted(HuffmanTree(d))
  {
    InitialForestSums(d);
    HuffmanInvariant(InitialForest(d));
    KeysDistinct(d);
    KeysIndex(d);
    assert |multiset(Leaves(HuffmanTree(d)))| == |multiset(Keys(d))|;
  }

  // ---------------------------------------------------------------------
  // The encoding table

  /** What `__build_encoding_table(t, prefix)` writes into the table: each
      leaf symbol mapped to `prefix` followed by the labels on its path, the
      left subtree written before the right. */
  function Codes(t: HTree, prefix: string): map<char, string> {
    match t
    case Leaf(c, _) => map[c := prefix]
    case Internal(_, l, r) => Codes(l, prefix + "0") + Codes(r, prefix + "1")
  }

  /** `bits` leads from the root of `t` to a leaf holding `c`, 0 going left
      and 1 going right. */
  predicate IsPath(t: HTree, c: char, bits: string)
    decreases t
  {
    match t
    case Leaf(c', _) => bits == [] && c' == c
    case Internal(_, l, r) =>
      |bits| > 0 &&
      ((bits[0] == '0' && IsPath(l, c, bits[1..])) || (bits[0] == '1' && IsPath(r, c, bits[1..])))
  }

  lemma {:induction false} CodesKey(t: HTree, prefix: string, c: char)
    ensures c in Codes(t, prefix) <==> c in Leaves(t)
  {
    match t
    case Leaf(_, _) =>
    case Internal(_, l, r) =>
      CodesKey(l, prefix + "0", c);
      CodesKey(r, prefix + "1", c);
  }

  /** The table has an entry for exactly the leaf symbols. */
  lemma CodesKeys(t: HTree, prefix: string)
    ensures forall c :: c in Codes(t, prefix) <==> c in Leaves(t)
  {
    forall c ensures c in Codes(t, prefix) <==> c in Leaves(t) {
      CodesKey(t, prefix, c);
    }
  }

  /** Every code in the table starts with the prefix and continues in binary
      digits; below an internal node it is strictly longer than the prefix. */
  lemma {:induction false} CodesExtend(t: HTree, prefix: string)
    requires IsBits(prefix)
    ensures forall c :: c in Codes(t, prefix) ==>
      prefix <= Codes(t, prefix)[c] && IsBits(Codes(t, prefix)[c]) &&
      (t.Internal? ==> |Codes(t, prefix)[c]| > |prefix|)
  {
    match t
    case Leaf(_, _) =>
    case Internal(_, l, r) =>
      CodesExtend(l, prefix + "0");
      CodesExtend(r, prefix + "1");
      forall c | c in Codes(t, prefix)
        ensures prefix <= Codes(t, prefix)[c] && IsBits(Codes(t, prefix)[c])
        ensures |Codes(t, prefix)[c]| > |prefix|
      {
        var code := Codes(t, prefix)[c];
        if c in Codes(r, prefix + "1") {
          assert (prefix + "1")[..|prefix|] == prefix;
          assert code[..|prefix| + 1] == prefix + "1";
        } else {
          assert (prefix + "0")[..|prefix|] == prefix;
          assert code[..|prefix| + 1] == prefix + "0";
        }
      }
  }

  /** Below a node with distinct leaves, each subtree has distinct leaves
      and no symbol sits on both sides. */
  lemma DistinctSubtrees(t: HTree)
    requires t.Internal? && DistinctLeaves(t)
    ensures DistinctLeaves(t.left) && DistinctLeaves(t.right)
    ensures forall c :: c in Leaves(t.left) ==> c !in Leaves(t.right)
  {
    var l, r := t.left, t.right;
    assert multiset(Leaves(t)) == multiset(Leaves(l)) + multiset(Leaves(r));
    forall c ensures multiset(Leaves(l))[c] <= 1 && multiset(Leaves(r))[c] <= 1 {
      assert multiset(Leaves(t))[c] <= 1;
    }
    forall c | c in Leaves(l) ensures c !in Leaves(r) {
      assert multiset(Leaves(t))[c] <= 1;
    }
  }

  /** A code derived below `prefix` is `prefix` followed by the code the
      same subtree gives from an empty prefix. */
  lemma {:induction false} CodesShift(t: HTree, prefix: string, c: char)
    requires c in Leaves(t)
    ensures c in Codes(t, prefix) && c in Codes(t, "")
    ensures Codes(t, prefix)[c] == prefix + Codes(t, "")[c]
    decreases t, 1
  {
    match t
    case Leaf(_, _) =>
      assert prefix + "" == prefix;
    case Internal(_, l, r) =>
      CodesKey(r, prefix + "1", c);
      if c in Leaves(r) {
        CodesShiftRight(t, prefix, c);
      } else {
        CodesShiftLeft(t, prefix, c);
      }
  }

  lemma {:induction false} CodesShiftRight(t: HTree, prefix: string, c: char)
    requires t.Internal? && c in Leaves(t.right)
    ensures c in Codes(t, prefix) && c in Codes(t, "")
    ensures Codes(t, prefix)[c] == prefix + Codes(t, "")[c]
    decreases t, 0
  {
    // `Codes` calls itself on the prefixes `"" + "0"` and `"" + "1"`; naming
    // those terms and equating them with the literals lets the two meet.
    var one, p1 := "" + "1", prefix + "1";
    assert one == "1";
    CodesShift(t.right, p1, c);
    CodesShift(t.right, one, c);
    var y := Codes(t.right, "")[c];
    assert p1 + y == prefix + (one + y);
  }

  lemma {:induction false} CodesShiftLeft(t: HTree, prefix: string, c: char)
    requires t.Internal? && c in Leaves(t.left) && c !in Leaves(t.right)
    ensures c in Codes(t, prefix) && c in Codes(t, "")
    ensures Codes(t, prefix)[c] == prefix + Codes(t, "")[c]
    decreases t, 0
  {
    // `Codes` calls itself on the prefixes `"" + "0"` and `"" + "1"`; naming
    // those terms and equating them with the literals lets the two meet.
    var zero, one, p0, p1 := "" + "0", "" + "1", prefix + "0", prefix + "1";
    assert zero == "0";
    CodesKey(t.right, p1, c);
    CodesKey(t.right, one, c);
    CodesShift(t.left, p0, c);
    CodesShift(t.left, zero, c);
    var y := Codes(t.left, "")[c];
    assert p0 + y == prefix + (zero + y);
  }

  /** Below an internal node, a symbol's code is its code in the subtree
      holding it, after the label of that side. */
  lemma CodesChild(t: HTree, c: char)
    requires t.Internal? && c in Leaves(t)
    ensures c in Codes(t, "")
    ensures c in Leaves(t.right) ==>
      c in Codes(t.right, "") && Codes(t, "")[c] == "1" + Codes(t.right, "")[c]
    ensures c !in Leaves(t.right) ==>
      c in Leaves(t.left) && c in Codes(t.left, "") && Codes(t, "")[c] == "0" + Codes(t.left, "")[c]
  {
    // `Codes` calls itself on the prefixes `"" + "0"` and `"" + "1"`; naming
    // those terms and equating them with the literals lets the two meet.
    var zero, one := "" + "0", "" + "1";
    assert zero == "0" && one == "1";
    CodesKey(t.right, one, c);
    if c in Leaves(t.right) {
      CodesShift(t.right, one, c);
    } else {
      CodesShift(t.left, zero, c);
    }
  }

  /** The code of each leaf symbol is a root-to-leaf path to it. */
  lemma {:induction false} CodesArePaths(t: HTree, c: char)
    requires c in Leaves(t)
    ensures c in Codes(t, "")
    ensures IsPath(t, c, Codes(t, "")[c])
  {
    CodesKeys(t, "");
    match t
    case Leaf(_, _) =>
    case Internal(_, l, r) =>
      CodesChild(t, c);
      var code := Codes(t, "")[c];
      if c in Leaves(r) {
        CodesArePaths(r, c);
        assert code[0] == '1' && code[1..] == Codes(r, "")[c];
      } else {
        CodesArePaths(l, c);
        assert code[0] == '0' && code[1..] == Codes(l, "")[c];
      }
  }

  lemma {:induction false} PathLeaf(t: HTree, c: char, bits: string)
    requires IsPath(t, c, bits)
    ensures c in Leaves(t)
  {
    match t
    case Leaf(_, _) =>
    case Internal(_, l, r) =>
      if bits[0] == '0' && IsPath(l, c, bits[1..]) {
        PathLeaf(l, c, bits[1..]);
      } else {
        PathLeaf(r, c, bits[1..]);
      }
  }

  /** With distinct leaves, a symbol has at most one path. */
  lemma {:induction false} PathUnique(t: HTree, c: char, a: string, b: string)
    requires DistinctLeaves(t) && IsPath(t, c, a) && IsPath(t, c, b)
    ensures a == b
  {
    match t
    case Leaf(_, _) =>
    case Internal(_, l, r) =>
      DistinctSubtrees(t);
      if a[0] == '0' { PathLeaf(l, c, a[1..]); } else { PathLeaf(r, c, a[1..]); }
      if b[0] == '0' { PathLeaf(l, c, b[1..]); } else { PathLeaf(r, c, b[1..]); }
      assert a == [a[0]] + a[1..] && b == [b[0]] + b[1..];
      if a[0] == '0' {
        assert b[0] == '0';
        PathUnique(l, c, a[1..], b[1..]);
      } else {
        assert b[0] == '1';
        PathUnique(r, c, a[1..], b[1..]);
      }
  }

  /** Every leaf symbol receives exactly one code, and a string of bits is
      that code exactly when it is the symbol's root-to-leaf path. */
  lemma CodeIsPath(t: HTree, c: char, bits: string)
    requires DistinctLeaves(t) && c in Leaves(t)
    ensures c in Codes(t, "")
    ensures IsPath(t, c, bits) <==> Codes(t, "")[c] == bits
  {
    CodesArePaths(t, c);
    if IsPath(t, c, bits) {
      PathUnique(t, c, bits, Codes(t, "")[c]);
    }
  }

  lemma ConsPrefix(b: char, x: string, y: string)
    ensures ([b] + x <= [b] + y) <==> (x <= y)
  {
    if [b] + x <= [b] + y {
      assert x == ([b] + x)[1..] && y[..|x|] == ([b] + y)[1..|x| + 1];
    }
  }

  /** With distinct leaves no code is a prefix of another symbol's code. */
  lemma {:induction false} CodesPrefixFree(t: HTree)
    requires DistinctLeaves(t)
    ensures forall c1, c2 :: c1 in Codes(t, "") && c2 in Codes(t, "") && c1 != c2 ==>
      !(Codes(t, "")[c1] <= Codes(t, "")[c2])
  {
    match t
    case Leaf(_, _) =>
    case Internal(_, l, r) =>
      DistinctSubtrees(t);
      CodesPrefixFree(l);
      CodesPrefixFree(r);
      CodesKeys(t, "");
      var m := Codes(t, "");
      forall c1, c2 | c1 in m && c2 in m && c1 != c2 ensures !(m[c1] <= m[c2]) {
        CodesChild(t, c1);
        CodesChild(t, c2);
        var inR1, inR2 := c1 in Leaves(r), c2 in Leaves(r);
        var x1 := if inR1 then "1" + Codes(r, "")[c1] else "0" + Codes(l, "")[c1];
        var x2 := if inR2 then "1" + Codes(r, "")[c2] else "0" + Codes(l, "")[c2];
        assert m[c1] == x1 && m[c2] == x2;
        if inR1 != inR2 {
          assert x1[0] != x2[0];
        } else if inR1 {
          ConsPrefix('1', Codes(r, "")[c1], Codes(r, "")[c2]);
        } else {
          ConsPrefix('0', Codes(l, "")[c1], Codes(l, "")[c2]);
        }
      }
  }

  /** Codes are binary; below an internal root (two or more symbols) none
      is empty. */
  lemma CodesAreBits(t: HTree)
    ensures forall c :: c in Codes(t, "") ==> IsBits(Codes(t, "")[c])
    ensures t.Internal? ==> forall c :: c in Codes(t, "") ==> Codes(t, "")[c] != ""
  {
    CodesExtend(t, "");
  }

  /** A lone leaf root receives the empty code: the walk starts with "" and
      the root is already a leaf. */
  lemma LoneLeafCode(c: char, f: int)
    ensures Codes(Leaf(c, f), "") == map[c := ""]
    ensures IsPath(Leaf(c, f), c, "")
  {
  }

  // ---------------------------------------------------------------------
  // The encoded body and its decoding

  /** The bits `__encode` concatenates before padding: the code of every
      symbol of `content`, in order. */
  function Body(content: string, table: map<char, string>): string
    requires forall c :: c in content ==> c in table
  {
    if content == [] then [] else table[content[0]] + Body(content[1..], table)
  }

  lemma {:induction false} BodySnoc(content: string, c: char, table: map<char, string>)
    requires forall x :: x in content ==> x in table
    requires c in table
    ensures Body(content + [c], table) == Body(content, table) + table[c]
  {
    if content == [] {
      assert [] + [c] == [c];
    } else {
      assert (content + [c])[1..] == content[1..] + [c];
      BodySnoc(content[1..], c, table);
    }
  }

  /** The body's length is the sum of the code lengths of the symbols. */
  lemma {:induction false} BodyLength(content: string, table: map<char, string>)
    requires forall c :: c in content ==> c in table
    ensures |Body(content, table)| == SumOf(content, (c: char) => if c in table then |table[c]| else 0)
  {
    if content != [] {
      BodyLength(content[1..], table);
    }
  }

  lemma {:induction false} BodyIsBits(content: string, table: map<char, string>)
    requires forall c :: c in content ==> c in table
    requires forall c :: c in content ==> IsBits(table[c])
    ensures IsBits(Body(content, table))
  {
    if content != [] {
      BodyIsBits(content[1..], table);
    }
  }

  /** When every symbol of `content` has a code in `codes`, entries of an
      older table underneath do not change the body. */
  lemma {:induction false} BodyOverride(content: string, older: map<char, string>, codes: map<char, string>)
    requires forall c :: c in content ==> c in codes
    ensures Body(content, older + codes) == Body(content, codes)
  {
    if content != [] {
      BodyOverride(content[1..], older, codes);
    }
  }

  /** Reads one symbol off the front of `bits` by walking the tree. */
  function DecodeSymbol(t: HTree, bits: string): Option<(char, string)> {
    match t
    case Leaf(c, _) => Some((c, bits))
    case Internal(_, l, r) =>
      if bits == [] then None
      else if bits[0] == '0' then DecodeSymbol(l, bits[1..])
      else if bits[0] == '1' then DecodeSymbol(r, bits[1..])
      else None
  }

  /** Reads `n` symbols off the front of `bits`. */
  function DecodeN(t: HTree, bits: string, n: nat): Option<(string, string)>
    decreases n
  {
    if n == 0 then Some(([], bits))
    else match DecodeSymbol(t, bits)
      case None => None
      case Some((c, rest)) =>
        match DecodeN(t, rest, n - 1)
        case None => None
        case Some((s, rest')) => Some(([c] + s, rest'))
  }

  lemma {:induction false} DecodePath(t: HTree, c: char, path: string, rest: string)
    requires IsPath(t, c, path)
    ensures DecodeSymbol(t, path + rest) == Some((c, rest))
  {
    match t
    case Leaf(_, _) =>
      assert path + rest == rest;
    case Internal(_, l, r) =>
      assert (path + rest)[1..] == path[1..] + rest;
      if path[0] == '0' && IsPath(l, c, path[1..]) {
        DecodePath(l, c, path[1..], rest);
      } else {
        DecodePath(r, c, path[1..], rest);
      }
  }

  /** The codes can be read back: walking the tree over the body of
      `content` yields `content` again, one symbol per walk (for a lone leaf
      root, whose code is empty, the walk reads no bits at all). */
  lemma {:induction false} DecodeBody(t: HTree, content: string, rest: string)
    requires DistinctLeaves(t)
    requires forall c :: c in content ==> c in Leaves(t)
    ensures forall c :: c in content ==> c in Codes(t, "")
    ensures DecodeN(t, Body(content, Codes(t, "")) + rest, |content|) == Some((content, rest))
  {
    CodesKeys(t, "");
    if content == [] {
      assert Body(content, Codes(t, "")) + rest == rest;
    } else {
      var c, more := content[0], content[1..];
      DecodeBody(t, more, rest);
      DecodeBodyStep(t, c, more, rest);
      assert content == [c] + more;
    }
  }

  lemma DecodeBodyStep(t: HTree, c: char, more: string, rest: string)
    requires DistinctLeaves(t) && c in Leaves(t)
    requires forall x :: x in more ==> x in Codes(t, "")
    requires DecodeN(t, Body(more, Codes(t, "")) + rest, |more|) == Some((more, rest))
    ensures c in Codes(t, "")
    ensures DecodeN(t, Body([c] + more, Codes(t, "")) + rest, |more| + 1) == Some(([c] + more, rest))
  {
    var table := Codes(t, "");
    CodesKey(t, "", c);
    CodeIsPath(t, c, table[c]);
    var code, body := table[c], Body(more, table);
    assert ([c] + more)[1..] == more;
    assert Body([c] + more, table) == code + body;
    Assoc(code, body, rest);
    DecodePath(t, c, code, body + rest);
  }
}
