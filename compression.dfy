/** The `Compressor` class: counting the symbols of a text, building the
    Huffman tree out of `Node` objects, deriving the code table, encoding
    and padding the text, grouping the bits into bytes, and writing the
    frequency file. The pure functions at the top state what one run
    produces; the class's methods are proved to produce it. */
module Compression {
  import opened Errors
  import opened Lists
  import opened Frequency
  import opened Bits
  import opened Trees
  import opened Sidecar
  import opened Nodes

  /** What one run of `compress` writes: the bytes of the compressed file
      and the text of the frequency file. */
  datatype Artifacts = Artifacts(payload: seq<byte>, sidecar: string)

  /** The first symbol of `s` that has no code in `table`, if any. */
  function FirstUnknown(s: string, table: map<char, string>): (r: Option<char>)
    ensures r.None? <==> forall c :: c in s ==> c in table
    ensures r.Some? ==> r.value in s && r.value !in table
  {
    if s == [] then None
    else if s[0] !in table then Some(s[0])
    else FirstUnknown(s[1..], table)
  }

  lemma {:induction false} FirstUnknownAt(s: string, table: map<char, string>, i: nat)
    requires i < |s| && s[i] !in table
    requires forall k :: 0 <= k < i ==> s[k] in table
    ensures FirstUnknown(s, table) == Some(s[i])
  {
    if i > 0 {
      FirstUnknownAt(s[1..], table, i - 1);
    }
  }

  /** The bit string `__encode` returns: the lookup of the first symbol
      without a code fails; otherwise the codes of all symbols, padded. */
  function EncodeSpec(content: string, table: map<char, string>): Result<string> {
    match FirstUnknown(content, table)
    case Some(c) => Failure(UnknownSymbol(c))
    case None => Success(Padded(Body(content, table)))
  }

  /** The codes of the symbols of `content` are binary digits. */
  predicate CodesBinaryFor(content: string, table: map<char, string>) {
    forall c :: c in content && c in table ==> IsBits(table[c])
  }

  lemma EncodeSpecBits(content: string, table: map<char, string>)
    requires CodesBinaryFor(content, table)
    ensures EncodeSpec(content, table).Success? ==> IsBits(EncodeSpec(content, table).value)
  {
    if FirstUnknown(content, table).None? {
      BodyIsBits(content, table);
      PaddedSpec(Body(content, table));
    }
  }

  /** What `__get_byte_array` returns: an exit on a bit string that is not
      a whole number of bytes, the grouped bytes otherwise. */
  function ByteArraySpec(bits: string): Result<seq<byte>>
    requires IsBits(bits)
  {
    if |bits| % 8 != 0 then Failure(MisalignedBitstream) else Success(Group(bits))
  }

  /** The bytes `__write_compressed_file` writes for `content`. */
  function PayloadSpec(content: string, table: map<char, string>): Result<seq<byte>>
    requires CodesBinaryFor(content, table)
  {
    match EncodeSpec(content, table)
    case Failure(e) => Failure(e)
    case Success(bits) =>
      EncodeSpecBits(content, table);
      ByteArraySpec(bits)
  }

  function WithSidecar(payload: Result<seq<byte>>, sidecar: string): Result<Artifacts> {
    match payload
    case Failure(e) => Failure(e)
    case Success(bytes) => Success(Artifacts(bytes, sidecar))
  }

  lemma FrequencyTableEmpty(s: string)
    ensures FrequencyTable(s) == [] <==> s == []
  {
    FrequencyTableSpec(s);
    if s != [] {
      assert s[0] in Keys(FrequencyTable(s));
    }
    if FrequencyTable(s) != [] {
      assert FrequencyTable(s)[0].ch in Keys(FrequencyTable(s));
    }
  }

  /** The code table `compress` derives for a non-empty text. */
  function HuffmanCodes(content: string): map<char, string>
    requires content != []
  {
    FrequencyTableEmpty(content);
    Codes(HuffmanTree(FrequencyTable(content)), "")
  }

  /** The tree of a non-empty text has one leaf per distinct symbol of the
      text, so every symbol of the text receives a binary code, and the
      entries of an older table are all replaced for those symbols. */
  lemma TableCovers(content: string, older: map<char, string>)
    requires content != []
    ensures FrequencyTable(content) != []
    ensures DistinctLeaves(HuffmanTree(FrequencyTable(content)))
    ensures forall c :: c in content <==> c in Leaves(HuffmanTree(FrequencyTable(content)))
    ensures forall c :: c in content <==> c in HuffmanCodes(content)
    ensures forall c :: c in content ==> (older + HuffmanCodes(content))[c] == HuffmanCodes(content)[c]
    ensures CodesBinaryFor(content, older + HuffmanCodes(content))
  {
    FrequencyTableEmpty(content);
    var t := HuffmanTree(FrequencyTable(content));
    ContentLeaves(content);
    CodesKeys(t, "");
    CodesAreBits(t);
  }

  /** The leaves of the tree of a non-empty text are its distinct symbols. */
  lemma ContentLeaves(content: string)
    requires content != []
    ensures FrequencyTable(content) != []
    ensures DistinctLeaves(HuffmanTree(FrequencyTable(content)))
    ensures forall c :: c in content <==> c in Leaves(HuffmanTree(FrequencyTable(content)))
  {
    FrequencyTableEmpty(content);
    var d := FrequencyTable(content);
    var t := HuffmanTree(d);
    FrequencyTableSpec(content);
    HuffmanTreeSpec(d);
    forall c ensures c in content <==> c in Leaves(t) {
      assert c in Leaves(t) <==> multiset(Leaves(t))[c] > 0;
      assert c in Keys(d) <==> multiset(Keys(d))[c] > 0;
    }
  }

  /** The codes of the symbols of a non-empty text, concatenated. */
  function EncodedBody(content: string): string
    requires content != []
  {
    TableCovers(content, map[]);
    Body(content, HuffmanCodes(content))
  }

  /** The padded bit string `compress` encodes a non-empty text into. */
  function EncodedBits(content: string): string
    requires content != []
  {
    Padded(EncodedBody(content))
  }

  /** What one run of `compress` produces, given the code table left by
      earlier runs: an empty text has no tree; otherwise the compressed
      bytes and the frequency file. */
  function CompressSpec(content: string, older: map<char, string>): Result<Artifacts> {
    var d := FrequencyTable(content);
    if d == [] then Failure(EmptyAlphabet)
    else
      FrequencyTableEmpty(content);
      TableCovers(content, older);
      WithSidecar(PayloadSpec(content, older + HuffmanCodes(content)), SidecarText(d))
  }

  /** `compress` fails exactly on an empty text. Otherwise the bytes spell
      out the padded codes of the text's symbols, and the frequency file
      records the sorted frequency dictionary. */
  lemma CompressOutcome(content: string, older: map<char, string>)
    ensures content == [] ==> CompressSpec(content, older) == Failure(EmptyAlphabet)
    ensures content != [] ==> CompressSpec(content, older).Success?
    ensures content != [] ==>
      BytesToBits(CompressSpec(content, older).value.payload) == EncodedBits(content)
    ensures content != [] ==>
      CompressSpec(content, older).value.sidecar == SidecarText(FrequencyTable(content))
  {
    FrequencyTableEmpty(content);
    if content != [] {
      TableCovers(content, older);
      var codes := HuffmanCodes(content);
      var table := older + codes;
      BodyOverride(content, older, codes);
      var body := Body(content, codes);
      BodyIsBits(content, codes);
      PaddedSpec(body);
      assert EncodeSpec(content, table) == Success(Padded(body));
      BytesToBitsGroup(Padded(body));
    }
  }

  /** The inverse of `compress`: read the frequency file, rebuild the tree
      from it, drop the padding and walk the tree once per counted symbol. */
  function Decompress(payload: seq<byte>, sidecar: string): Option<string> {
    match ParseSidecar(sidecar)
    case None => None
    case Some(d) =>
      if d == [] then None
      else
        var bits := BytesToBits(payload);
        BytesToBitsIsBits(payload);
        if |bits| < 8 || BitsValue(bits[..8]) > |bits| - 8 then None
        else
          var n := SumOf(d, EntryFreq);
          if n < 0 then None
          else match DecodeN(HuffmanTree(d), Unpad(bits), n)
            case None => None
            case Some((s, rest)) => if rest == [] then Some(s) else None
  }

  /** Compression of a non-empty text succeeds and loses nothing:
      decompressing what `compress` writes gives back the text. */
  lemma CompressRoundTrip(content: string, older: map<char, string>)
    requires content != []
    ensures CompressSpec(content, older).Success? &&
      Decompress(CompressSpec(content, older).value.payload,
                 CompressSpec(content, older).value.sidecar) == Some(content)
  {
    CompressOutcome(content, older);
    var a := CompressSpec(content, older).value;
    DecompressEncoded(content, a.payload, a.sidecar);
  }

  /** Bytes spelling out the padded codes of a text, with the frequency
      file of that text, decompress to the text. */
  lemma DecompressEncoded(content: string, payload: seq<byte>, sidecar: string)
    requires content != []
    requires BytesToBits(payload) == EncodedBits(content)
    requires sidecar == SidecarText(FrequencyTable(content))
    ensures Decompress(payload, sidecar) == Some(content)
  {
    var d := FrequencyTable(content);
    FrequencyTableEmpty(content);
    ParseSidecarText(d);
    FrequencySum(content);
    BodyDecodes(content);
    EncodedBodyBits(content);
    DecompressOf(payload, sidecar, d, EncodedBody(content), content);
  }

  lemma FrequencySum(content: string)
    ensures SumOf(FrequencyTable(content), EntryFreq) == |content|
  {
    FrequencyTableSpec(content);
  }

  /** Walking the tree over the codes of a text reads back the text. */
  lemma BodyDecodes(content: string)
    requires content != []
    ensures FrequencyTable(content) != []
    ensures DecodeN(HuffmanTree(FrequencyTable(content)), EncodedBody(content), |content|)
      == Some((content, []))
  {
    ContentLeaves(content);
    var t := HuffmanTree(FrequencyTable(content));
    DecodeBody(t, content, []);
    EncodedBodyCodes(content);
    AppendNil(EncodedBody(content));
  }

  lemma EncodedBodyCodes(content: string)
    requires content != []
    ensures FrequencyTable(content) != []
    ensures forall c :: c in content ==> c in Codes(HuffmanTree(FrequencyTable(content)), "")
    ensures EncodedBody(content) == Body(content, Codes(HuffmanTree(FrequencyTable(content)), ""))
  {
    TableCovers(content, map[]);
  }

  lemma EncodedBodyBits(content: string)
    requires content != []
    ensures IsBits(EncodedBody(content))
  {
    TableCovers(content, map[]);
    BodyIsBits(content, HuffmanCodes(content));
  }

  lemma DecompressOf(payload: seq<byte>, sidecar: string, d: seq<Entry>, body: string, content: string)
    requires ParseSidecar(sidecar) == Some(d) && d != []
    requires IsBits(body) && BytesToBits(payload) == Padded(body)
    requires SumOf(d, EntryFreq) == |content|
    requires DecodeN(HuffmanTree(d), body, |content|) == Some((content, []))
    ensures Decompress(payload, sidecar) == Some(content)
  {
    UnpadPadded(body);
  }

  lemma {:induction false} ConstantMultiset(s: string, c: char)
    requires forall i :: 0 <= i < |s| ==> s[i] == c
    ensures multiset(s) == multiset{}[c := |s|]
  {
    if s != [] {
      ConstantMultiset(s[1..], c);
      assert s == [s[0]] + s[1..];
    }
  }

  lemma {:induction false} LoneCodeBody(s: string, c: char)
    requires forall i :: 0 <= i < |s| ==> s[i] == c
    ensures Body(s, map[c := ""]) == ""
  {
    if s != [] {
      LoneCodeBody(s[1..], c);
    }
  }

  /** A text made of one symbol repeated has a one-entry frequency table,
      a lone leaf as tree, and therefore the empty code for that symbol. */
  lemma LoneSymbolBody(content: string)
    requires content != []
    requires forall i :: 0 <= i < |content| ==> content[i] == content[0]
    ensures FrequencyTable(content) == [Entry(content[0], |content|)]
    ensures EncodedBody(content) == ""
  {
    var c := content[0];
    var d := [Entry(c, |content|)];
    ConstantMultiset(content, c);
    FrequencyTableUnique(content, d);
    assert HuffmanTree(d) == Leaf(c, |content|);
    LoneLeafCode(c, |content|);
    LoneCodeBody(content, c);
  }

  /** The padding of the empty bit string is the header byte 8 and one
      zero byte. */
  lemma PaddedEmpty()
    ensures Padded("") == BytesToBits([8, 0])
  {
    assert Format08b(0) == Zeros(8);
    assert BytesToBits([0]) == Format08b(0) + BytesToBits([]);
  }

  lemma BytesToBitsInjective(p: seq<byte>, q: seq<byte>)
    requires BytesToBits(p) == BytesToBits(q)
    ensures p == q
  {
    GroupBytesToBits(p);
    GroupBytesToBits(q);
  }

  /** A text made of one symbol repeated gets the empty code for that
      symbol, so its compressed file is the header byte 8 followed by one
      zero byte, whatever the length of the text. */
  lemma SingleSymbolPayload(content: string, older: map<char, string>)
    requires content != []
    requires forall i :: 0 <= i < |content| ==> content[i] == content[0]
    ensures CompressSpec(content, older) ==
      Success(Artifacts([8, 0], SidecarText([Entry(content[0], |content|)])))
  {
    CompressOutcome(content, older);
    LoneSymbolBody(content);
    PaddedEmpty();
    BytesToBitsInjective(CompressSpec(content, older).value.payload, [8, 0]);
  }

  /** Encodes a file's text with the Huffman algorithm. `content` stands for
      the text of the file at `path`; the two dictionaries are fields. */
  class Compressor {
    const content: string
    var alphabetFrequency: seq<Entry>
    var encodingTable: map<char, string>

    constructor (content: string)
      ensures this.content == content
      ensures alphabetFrequency == [] && encodingTable == map[]
    {
      this.content := content;
      alphabetFrequency := [];
      encodingTable := map[];
    }

    /** `__create_alphabet_frequency`: count every symbol in one pass, then
        sort the entries by symbol and, stably, by count. */
    method CreateAlphabetFrequency() returns (d: seq<Entry>)
      ensures d == FrequencyTable(content)
    {
      d := [];
      for i := 0 to |content|
        invariant d == CountAll(content[..i])
      {
        var c := content[i];
        d := Put(d, c, Get(d, c, 0) + 1);
        assert content[..i + 1][..i] == content[..i];
      }
      assert content[..|content|] == content;
      d := SortBy(d, EntryChar);
      d := SortBy(d, EntryFreq);
    }

    /** `__get_two_smallest_nodes`: one pass that keeps the two smallest
        counts seen so far. */
    method GetTwoSmallestNodes(nodes: seq<Node>) returns (min1: Node, min2: Node)
      requires |nodes| >= 2
      ensures exists i1, i2 :: TwoSmallest(nodes, i1, i2) && min1 == nodes[i1] && min2 == nodes[i2]
      ensures min1.frequency <= min2.frequency
      ensures forall n :: n in nodes ==> min1.frequency <= n.frequency
    {
      min1, min2 := nodes[0], nodes[1];
      ghost var g1, g2 := 0, 1;
      if min2.frequency < min1.frequency {
        min1, min2 := min2, min1;
        g1, g2 := 1, 0;
      }
      for k := 2 to |nodes|
        invariant TwoSmallestIn(nodes, k, g1, g2)
        invariant min1 == nodes[g1] && min2 == nodes[g2]
      {
        var node := nodes[k];
        if node.frequency < min1.frequency {
          min2, min1 := min1, node;
          g2, g1 := g1, k;
        } else if node.frequency < min2.frequency {
          min2 := node;
          g2 := k;
        }
      }
    }

    /** `__merge_nodes`: a new parent over the two nodes, labels "0" and
        "1" on them, both removed from the list and the parent appended. */
    method MergeNodes(nodes: seq<Node>, min1: Node, min2: Node) returns (rest: seq<Node>)
      requires min1 in nodes && min2 in RemoveFirst(nodes, min1)
      modifies min1`code, min2`code
      ensures |rest| == |nodes| - 1
      ensures rest[..|rest| - 1] == RemoveFirst(RemoveFirst(nodes, min1), min2)
      ensures fresh(rest[|rest| - 1]) && rest[|rest| - 1] !in nodes
      ensures rest[|rest| - 1].ch == None && rest[|rest| - 1].code == ""
      ensures rest[|rest| - 1].frequency == min1.frequency + min2.frequency
      ensures rest[|rest| - 1].left == min1 && rest[|rest| - 1].right == min2
      ensures min1.Valid() && min2.Valid() ==>
        rest[|rest| - 1].Valid() && rest[|rest| - 1].Tree() == Merge(min1.Tree(), min2.Tree())
      ensures min2.code == "1" && (min1 != min2 ==> min1.code == "0")
    {
      if min1.Valid() && min2.Valid() {
        ValidFinite(min1);
        ValidFinite(min2);
      }
      var parent := new Node(None, min1.frequency + min2.frequency, min1, min2);
      assert parent !in nodes;
      min1.code := "0";
      min2.code := "1";
      rest := RemoveFirst(RemoveFirst(nodes, min1), min2) + [parent];
    }

    /** `__create_tree`: one leaf per dictionary entry, then merge the two
        smallest of the stably sorted list until one node is left. Reading
        the root of an empty list is the failure of an empty text. */
    method CreateTree(af: seq<Entry>) returns (r: Result<Node>)
      ensures af == [] ==> r == Failure(EmptyAlphabet)
      ensures af != [] ==> r.Success? && r.value.Valid() && r.value.Tree() == HuffmanTree(af)
    {
      var nodes: seq<Node> := [];
      for i := 0 to |af|
        invariant |nodes| == i
        invariant forall k :: 0 <= k < i ==>
          nodes[k].Valid() && nodes[k].Tree() == Leaf(af[k].ch, af[k].freq)
        invariant forall n :: n in nodes ==> fresh(n)
        invariant DistinctNodes(nodes)
      {
        var node := new Node(Some(af[i].ch), af[i].freq, null, null);
        DistinctSnoc(nodes, node);
        nodes := nodes + [node];
      }
      ghost var ts := InitialForest(af);
      while |nodes| > 1
        invariant Represents(nodes, ts)
        invariant Huffman(ts) == Huffman(InitialForest(af))
        invariant DistinctNodes(nodes)
        invariant forall n :: n in nodes ==> fresh(n)
        invariant nodes == [] <==> af == []
        decreases |nodes|
      {
        nodes := MergeTwoSmallest(nodes, ts);
        ts := Step(ts);
      }
      if nodes == [] {
        r := Failure(EmptyAlphabet);
      } else {
        r := Success(nodes[0]);
      }
    }

    /** One turn of the loop of `__create_tree`: sort the list by count,
        pick the two smallest nodes and merge them. The list stands for the
        forest one `Step` makes of the forest it stood for. */
    method MergeTwoSmallest(nodes: seq<Node>, ghost ts: seq<HTree>) returns (rest: seq<Node>)
      requires |nodes| >= 2 && Represents(nodes, ts) && DistinctNodes(nodes)
      modifies set n | n in nodes
      ensures Represents(rest, Step(ts)) && DistinctNodes(rest)
      ensures forall n :: n in rest ==> n in nodes || fresh(n)
    {
      var sorted := SortBy(nodes, NodeFrequency);
      SortedForest(nodes, ts);
      var min1, min2 := GetTwoSmallestNodes(sorted);
      FirstTwo(sorted, min1, min2);
      ghost var s := SortBy(ts, TreeFreq);
      rest := MergeNodes(sorted, min1, min2);
      MergedForest(sorted, s, rest);
      KeptNodes(sorted, nodes, rest);
    }

    /** `__build_encoding_table`: record the code of a node with a symbol,
        else descend left with "0" appended and right with "1". */
    method BuildEncodingTable(node: Node, code: string)
      requires node.Finite()
      modifies this`encodingTable
      ensures encodingTable == old(encodingTable) + NodeTable(node, code)
      decreases node.height
    {
      if node.ch.Some? {
        encodingTable := encodingTable[node.ch.value := code];
      } else {
        ghost var before := encodingTable;
        ghost var l, r := map[], map[];
        if node.left != null {
          BuildEncodingTable(node.left, code + "0");
          l := NodeTable(node.left, code + "0");
        }
        ghost var mid := encodingTable;
        if node.right != null {
          BuildEncodingTable(node.right, code + "1");
          r := NodeTable(node.right, code + "1");
        }
        assert encodingTable == (before + l) + r;
        MapAssoc(before, l, r);
      }
    }

    /** `__write_alphabet_frequency`: the text written to the frequency
        file, the count on the first line and one escaped entry per line. */
    method WriteAlphabetFrequency(d: seq<Entry>) returns (text: string)
      ensures text == SidecarText(d)
    {
      ghost var head := NatToString(|d|) + "\n";
      text := NatToString(|d|) + "\n";
      for i := 0 to |d|
        invariant text == head + EntryLines(d[..i])
      {
        ghost var before := text;
        text := text + (Escape(d[i].ch) + " ");
        text := text + (NatToString(d[i].freq) + "\n");
        EntryLinesSnoc(d, i, head, before, text);
      }
      assert d[..|d|] == d;
    }

    /** `__encode`: concatenate the code of every symbol, then pad. */
    method Encode(text: string) returns (r: Result<string>)
      ensures r == EncodeSpec(text, encodingTable)
    {
      var binaryCode := "";
      for i := 0 to |text|
        invariant forall k :: 0 <= k < i ==> text[k] in encodingTable
        invariant binaryCode == Body(text[..i], encodingTable)
      {
        var c := text[i];
        if c !in encodingTable {
          FirstUnknownAt(text, encodingTable, i);
          return Failure(UnknownSymbol(c));
        }
        assert text[..i + 1] == text[..i] + [c];
        BodySnoc(text[..i], c, encodingTable);
        binaryCode := binaryCode + encodingTable[c];
      }
      assert text[..|text|] == text;
      var padded := PadEncodedText(binaryCode);
      r := Success(padded);
    }

    /** `__pad_encoded_text`: append zeros up to the next whole byte (a
        whole byte of them if none is missing), and put the count in front
        as eight binary digits. */
    method PadEncodedText(encodedText: string) returns (r: string)
      ensures r == Padded(encodedText)
    {
      var extraPadding := 8 - |encodedText| % 8;
      var text := encodedText;
      for i := 0 to extraPadding
        invariant text == encodedText + Zeros(i)
      {
        text := text + "0";
      }
      var paddedInfo := Format08b(extraPadding);
      r := paddedInfo + text;
    }

    /** `__get_byte_array`: an exit unless the bits fill whole bytes, then
        `int(text[i:i+8], 2)` for each group of eight. */
    method GetByteArray(text: string) returns (r: Result<seq<byte>>)
      requires IsBits(text)
      ensures r == ByteArraySpec(text)
    {
      if |text| % 8 != 0 {
        r := Failure(MisalignedBitstream);
        assert r == ByteArraySpec(text);
        return;
      }
      var b: seq<byte> := [];
      var i := 0;
      while i < |text|
        invariant 0 <= i <= |text| && i % 8 == 0
        invariant b + Group(text[i..]) == Group(text)
        decreases |text| - i
      {
        var chunk := text[i..i + 8];
        assert Pow2(8) == 256;
        assert text[i..][..8] == chunk && text[i..][8..] == text[i + 8..];
        b := b + [BitsValue(chunk) as byte];
        i := i + 8;
      }
      assert text[i..] == [];
      assert b + Group(text[i..]) == b + [];
      assert b == Group(text);
      r := Success(b);
      assert r == ByteArraySpec(text);
    }

    /** `__write_compressed_file`: encode the file's text and group the
        bits into the bytes written. */
    method WriteCompressedFile() returns (r: Result<seq<byte>>)
      requires CodesBinaryFor(content, encodingTable)
      ensures r == PayloadSpec(content, encodingTable)
    {
      var binaryCode := Encode(content);
      if binaryCode.Failure? {
        return Failure(binaryCode.error);
      }
      EncodeSpecBits(content, encodingTable);
      r := GetByteArray(binaryCode.value);
    }

    /** `compress`: count, build the tree, extend the code table, write the
        frequency file and the compressed file. */
    method Compress() returns (r: Result<Artifacts>)
      modifies this`alphabetFrequency, this`encodingTable
      ensures alphabetFrequency == FrequencyTable(content)
      ensures r == CompressSpec(content, old(encodingTable))
      ensures content == [] ==> encodingTable == old(encodingTable)
      ensures content != [] ==> encodingTable == old(encodingTable) + HuffmanCodes(content)
    {
      var af := CreateAlphabetFrequency();
      alphabetFrequency := af;
      FrequencyTableEmpty(content);
      var tree := CreateTree(af);
      if tree.Failure? {
        r := Failure(tree.error);
        return;
      }
      var root := tree.value;
      NodeTableCodes(root, "");
      BuildEncodingTable(root, "");
      CompressSpecBuilt(content, old(encodingTable));
      var sidecar := WriteAlphabetFrequency(af);
      var payload := WriteCompressedFile();
      r := WithSidecar(payload, sidecar);
    }
  }

  /** When the frequency file is written over the input, the text read back
      for encoding is the frequency file. Its first symbol is a decimal
      digit, and a text without digits has no code for it, so encoding
      fails there. */
  lemma OverwrittenInputFails(content: string, older: map<char, string>)
    requires content != []
    requires forall c :: c in content ==> !IsDigit(c)
    requires forall c :: c in older ==> !IsDigit(c)
    ensures var t := SidecarText(FrequencyTable(content));
      t != [] && IsDigit(t[0]) &&
      EncodeSpec(t, older + HuffmanCodes(content)) == Failure(UnknownSymbol(t[0]))
  {
    var d := FrequencyTable(content);
    var t := SidecarText(d);
    SidecarHeadDigit(d);
    assert t[0] !in older + HuffmanCodes(content) by {
      TableCovers(content, older);
    }
    HeadUnknown(t, older + HuffmanCodes(content));
  }

  /** A text whose first symbol has no code fails to encode at once. */
  lemma HeadUnknown(t: string, table: map<char, string>)
    requires t != [] && t[0] !in table
    ensures EncodeSpec(t, table) == Failure(UnknownSymbol(t[0]))
  {
  }

  /** For a non-empty text, `compress` writes the frequency file and then
      the compressed file encoded with the extended table. */
  lemma CompressSpecBuilt(content: string, older: map<char, string>)
    requires content != []
    ensures CodesBinaryFor(content, older + HuffmanCodes(content))
    ensures CompressSpec(content, older) ==
      WithSidecar(PayloadSpec(content, older + HuffmanCodes(content)), SidecarText(FrequencyTable(content)))
  {
    FrequencyTableEmpty(content);
    TableCovers(content, older);
  }

  /** One turn of the loop of `__write_alphabet_frequency` appends the
      line of one entry. */
  lemma EntryLinesSnoc(d: seq<Entry>, i: nat, head: string, before: string, text: string)
    requires i < |d| && before == head + EntryLines(d[..i])
    requires text == before + (Escape(d[i].ch) + " ") + (NatToString(d[i].freq) + "\n")
    ensures text == head + EntryLines(d[..i + 1])
  {
    assert d[..i + 1][..i] == d[..i];
    var e, n := Escape(d[i].ch) + " ", NatToString(d[i].freq);
    var l, line := EntryLines(d[..i]), EntryLine(d[i]);
    assert EntryLines(d[..i + 1]) == l + line;
    assert line == e + (n + "\n") by {
      Assoc(e, n, "\n");
    }
    Assoc(before, e, n + "\n");
    Assoc(head, l, line);
  }

  /** Appending a node not in the list keeps the nodes distinct. */
  lemma DistinctSnoc(nodes: seq<Node>, x: Node)
    requires DistinctNodes(nodes) && x !in nodes
    ensures DistinctNodes(nodes + [x])
  {
    var r := nodes + [x];
    forall i, j | 0 <= i < j < |r| ensures Identity(r[i]) != Identity(r[j]) {
      if j == |nodes| {
        assert r[i] in nodes;
      } else {
        assert r[i] == nodes[i] && r[j] == nodes[j];
      }
    }
  }

  /** Every node of the merged list but the new parent was in the list
      before the merge. */
  lemma KeptNodes(sorted: seq<Node>, nodes: seq<Node>, rest: seq<Node>)
    requires |sorted| >= 2 && |rest| == |sorted| - 1 && rest[..|rest| - 1] == sorted[2..]
    requires sorted == SortBy(nodes, NodeFrequency)
    ensures forall n :: n in rest && n != rest[|rest| - 1] ==> n in nodes
  {
    forall n | n in rest && n != rest[|rest| - 1] ensures n in nodes {
      var k :| 0 <= k < |rest| && rest[k] == n;
      assert rest[k] == rest[..|rest| - 1][k] == sorted[k + 2];
      assert n in multiset(sorted);
    }
  }

  /** The list `__create_tree` sorts stands for the sorted forest, still
      holds each node once, and its first two nodes are the ones chosen and
      removed. */
  lemma SortedForest(nodes: seq<Node>, ts: seq<HTree>)
    requires |nodes| >= 2 && Represents(nodes, ts) && DistinctNodes(nodes)
    ensures Represents(SortBy(nodes, NodeFrequency), SortBy(ts, TreeFreq))
    ensures DistinctNodes(SortBy(nodes, NodeFrequency))
    ensures TwoSmallest(SortBy(nodes, NodeFrequency), 0, 1)
    ensures SortBy(nodes, NodeFrequency)[0] in nodes && SortBy(nodes, NodeFrequency)[1] in nodes
    ensures SortBy(nodes, NodeFrequency)[1] in
      RemoveFirst(SortBy(nodes, NodeFrequency), SortBy(nodes, NodeFrequency)[0])
    ensures RemoveFirst(RemoveFirst(SortBy(nodes, NodeFrequency), SortBy(nodes, NodeFrequency)[0]),
                        SortBy(nodes, NodeFrequency)[1]) == SortBy(nodes, NodeFrequency)[2..]
  {
    var sorted := SortBy(nodes, NodeFrequency);
    RepresentsSortBy(nodes, ts);
    SortByIsSorted(nodes, NodeFrequency);
    SortByInjective(nodes, NodeFrequency, Identity);
    TwoSmallestOfSorted(sorted);
    assert sorted[0] in multiset(sorted) && sorted[1] in multiset(sorted);
    RemoveFirstTwo(sorted);
  }

  /** The nodes `__get_two_smallest_nodes` picks from a list sorted by count
      are its first two. */
  lemma FirstTwo(sorted: seq<Node>, min1: Node, min2: Node)
    requires TwoSmallest(sorted, 0, 1)
    requires exists i1, i2 :: TwoSmallest(sorted, i1, i2) && min1 == sorted[i1] && min2 == sorted[i2]
    ensures min1 == sorted[0] && min2 == sorted[1]
  {
    var i1, i2 :| TwoSmallest(sorted, i1, i2) && min1 == sorted[i1] && min2 == sorted[i2];
    TwoSmallestUnique(sorted, i1, i2, 0, 1);
  }

  /** Removing the first node of a list and then the second leaves the
      list from the third node on. */
  lemma RemoveFirstTwo(s: seq<Node>)
    requires |s| >= 2
    ensures s[0] in s && s[1] in RemoveFirst(s, s[0])
    ensures RemoveFirst(RemoveFirst(s, s[0]), s[1]) == s[2..]
  {
    var t := s[1..];
    assert RemoveFirst(s, s[0]) == t;
    assert t[0] == s[1] && t[1..] == s[2..];
  }

  /** After the merge step the list stands for the forest `Step` makes, and
      the new parent, not being in the sorted list, repeats no node. */
  lemma MergedForest(sorted: seq<Node>, s: seq<HTree>, nodes: seq<Node>)
    requires |sorted| >= 2 && Represents(sorted, s) && DistinctNodes(sorted)
    requires |nodes| == |sorted| - 1 && nodes[..|nodes| - 1] == sorted[2..]
    requires nodes[|nodes| - 1] !in sorted
    requires sorted[0].Valid() && sorted[1].Valid() ==>
      nodes[|nodes| - 1].Valid() && nodes[|nodes| - 1].Tree() == Merge(sorted[0].Tree(), sorted[1].Tree())
    ensures Represents(nodes, s[2..] + [Merge(s[0], s[1])])
    ensures DistinctNodes(nodes)
  {
    var ts := s[2..] + [Merge(s[0], s[1])];
    forall k | 0 <= k < |nodes| ensures nodes[k].Valid() && nodes[k].Tree() == ts[k] {
      if k < |nodes| - 1 {
        assert nodes[k] == nodes[..|nodes| - 1][k] == sorted[k + 2];
      }
    }
    forall i, j | 0 <= i < j < |nodes| ensures Identity(nodes[i]) != Identity(nodes[j]) {
      assert nodes[i] == sorted[i + 2];
      if j < |nodes| - 1 {
        assert nodes[j] == nodes[..|nodes| - 1][j] == sorted[j + 2];
      }
    }
  }
}
