/** The text "aaab" carried through every stage of `compress`: the
    frequency dictionary, the tree, the code table, the padded bits, the
    bytes and the frequency file. */
module Example {
  import opened Errors
  import opened Lists
  import opened Frequency
  import opened Bits
  import opened Trees
  import opened Sidecar
  import opened Compression

  lemma AaabCount()
    ensures CountAll("aaab") == [Entry('a', 3), Entry('b', 1)]
  {
    CountA(3);
    var s := "aaab";
    assert s[..3] == "aaa";
    PutB();
  }

  /** The first `n` symbols of "aaab" are all 'a'. */
  lemma {:induction false} CountA(n: nat)
    requires 1 <= n <= 3
    ensures CountAll("aaab"[..n]) == [Entry('a', n)]
  {
    var s := "aaab"[..n];
    if n == 1 {
      assert s == "a" && s[..0] == "";
    } else {
      CountA(n - 1);
      assert s[..n - 1] == "aaab"[..n - 1];
      assert s[n - 1] == 'a';
      assert Get([Entry('a', n - 1)], 'a', 0) == n - 1;
      assert Put([Entry('a', n - 1)], 'a', n) == [Entry('a', n)];
    }
  }

  lemma PutB()
    ensures Put([Entry('a', 3)], 'b', Get([Entry('a', 3)], 'b', 0) + 1) == [Entry('a', 3), Entry('b', 1)]
  {
    var d := [Entry('a', 3)];
    assert d[1..] == [];
    assert Get(d, 'b', 0) == 0;
  }

  lemma AaabTable()
    ensures FrequencyTable("aaab") == [Entry('b', 1), Entry('a', 3)]
  {
    AaabCount();
    var c := [Entry('a', 3), Entry('b', 1)];
    assert SortBy(c, EntryChar) == c;
    assert SortBy(c, EntryFreq) == [Entry('b', 1), Entry('a', 3)];
  }

  lemma AaabTree()
    ensures HuffmanTree([Entry('b', 1), Entry('a', 3)]) == Internal(4, Leaf('b', 1), Leaf('a', 3))
  {
    var ts := InitialForest([Entry('b', 1), Entry('a', 3)]);
    assert ts == [Leaf('b', 1), Leaf('a', 3)];
    assert SortBy(ts, TreeFreq) == ts;
    assert Step(ts) == [Internal(4, Leaf('b', 1), Leaf('a', 3))];
  }

  lemma AaabCodes()
    ensures Codes(Internal(4, Leaf('b', 1), Leaf('a', 3)), "") == map['b' := "0", 'a' := "1"]
  {
    // `Codes` calls itself on the prefixes `"" + "0"` and `"" + "1"`; naming
    // those terms and equating them with the literals lets the two meet.
    var zero, one := "" + "0", "" + "1";
    assert zero == "0" && one == "1";
    assert Codes(Leaf('b', 1), zero) == map['b' := "0"];
    assert Codes(Leaf('a', 3), one) == map['a' := "1"];
  }

  lemma AaabBody()
    ensures Body("aaab", map['b' := "0", 'a' := "1"]) == "1110"
  {
    var m := map['b' := "0", 'a' := "1"];
    assert "aaab"[1..] == "aab" && "aab"[1..] == "ab" && "ab"[1..] == "b" && "b"[1..] == "";
    assert Body("b", m) == "0";
    assert Body("ab", m) == "10";
    assert Body("aab", m) == "110";
  }

  lemma Digits4()
    ensures Format08b(4) == "00000100"
  {
    assert BinaryDigits(1) == "1";
    assert BinaryDigits(2) == "10";
    assert BinaryDigits(4) == "100";
    assert Zeros(5) == "00000";
  }

  lemma Digits224()
    ensures Format08b(224) == "11100000"
  {
    assert BinaryDigits(1) == "1";
    assert BinaryDigits(3) == "11";
    assert BinaryDigits(7) == "111";
    assert BinaryDigits(14) == "1110";
    assert BinaryDigits(28) == "11100";
    assert BinaryDigits(56) == "111000";
    assert BinaryDigits(112) == "1110000";
    assert BinaryDigits(224) == "11100000";
  }

  lemma AaabBytes()
    ensures BytesToBits([0x04, 0xE0]) == "00000100" + "11100000"
  {
    Digits4();
    Digits224();
    var bs: seq<byte> := [0x04, 0xE0];
    assert bs[1..] == [0xE0];
    assert BytesToBits([0xE0]) == "11100000" + BytesToBits([]);
  }

  lemma AaabBits()
    ensures Padded("1110") == BytesToBits([0x04, 0xE0])
  {
    Digits4();
    AaabBytes();
    assert PadCount(|"1110"|) == 4;
    assert Zeros(4) == "0000";
    assert Padded("1110") == "00000100" + "1110" + "0000";
  }

  lemma AaabSidecar()
    ensures SidecarText([Entry('b', 1), Entry('a', 3)]) == "2\nb 1\na 3\n"
  {
    var d := [Entry('b', 1), Entry('a', 3)];
    assert NatToString(1) == "1" && NatToString(2) == "2" && NatToString(3) == "3";
    assert Escape('a') == "a" && Escape('b') == "b";
    assert d[..1] == [Entry('b', 1)] && d[..1][..0] == [];
    assert EntryLines(d[..1]) == "b 1\n";
  }

  /** The text "aaab" compresses to the header byte 4 and the byte
      0b11100000: "b" gets code 0, "a" code 1; the frequency file lists "b"
      before "a". */
  lemma CompressAaab()
    ensures CompressSpec("aaab", map[]) == Success(Artifacts([0x04, 0xE0], "2\nb 1\na 3\n"))
  {
    var s := "aaab";
    CompressOutcome(s, map[]);
    AaabTable();
    AaabTree();
    AaabCodes();
    assert HuffmanCodes(s) == map['b' := "0", 'a' := "1"];
    AaabBody();
    assert EncodedBody(s) == "1110";
    AaabBits();
    BytesToBitsInjective(CompressSpec(s, map[]).value.payload, [0x04, 0xE0]);
    AaabSidecar();
  }
}
