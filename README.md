# Huffman compressor, modelled in Dafny

This project models the `Compressor` class of a small static Huffman encoder (`src/Compressor.py`) and the `Node` record it builds its trees from (`src/Node.py`). One run of `compress` does the following:

1. It counts every symbol of the input text and orders the counts by symbol, then stably by count.
2. It makes one leaf `Node` per symbol.
3. It repeatedly re-sorts the working list by count, picks the two smallest nodes with a linear scan, and merges them under a fresh parent appended to the list.
4. It walks the finished tree, recording `symbol -> path of 0/1 labels` in the `encoding_table` field.
5. It concatenates the codes of the text and pads them to whole bytes with `8 - len % 8` zeros behind an 8-bit header holding that count.
6. It groups the bits into bytes.
7. It writes a "frequency file": the number of symbols, then one `repr(symbol)[1:-1] count` line per symbol.

Modules, one per concept:

- `Errors`: the failure outcomes. These are the crash at `nodes[0]` on an empty text, the `KeyError` of `__encode`, and the `exit(0)` of `__get_byte_array`.
- `Lists`: Python's stable `sorted` as an insertion sort, `list.remove`, and sums and bags over lists.
- `Frequency`: the ordered `alphabet_frequency` dictionary, with `d.get` and `d[c] = v`.
- `Trees`: the Huffman tree as a value, one merge round (`Step`), the code table, the encoded body, and a decoder.
- `Nodes`: the mutable `Node` class, linked to the tree value it stands for.
- `Bits`: the binary-digit strings, the `"{0:08b}"` header, the padding rule, and bytes.
- `Sidecar`: the text of the frequency file, and a parser for it.
- `Compression`: the specification of one run and the `Compressor` class, whose methods are proved against that specification.
- `Paths`: the output file names of `__get_output_path`, and corrected names.
- `Example`: the text `"aaab"` traced through every stage. It ends as the bytes `[0x04, 0xE0]`.

The file system is replaced by values:
- The `path` of the input file becomes the `content` field, which holds the file's text.
- `__write_alphabet_frequency` returns the text it would write.
- `__write_compressed_file` returns the bytes it would write.
- `compress` returns both as `Artifacts`, or the failure that stops it.

The `encoding_table` field is never cleared, so a second `compress` on the same object extends the table left by the first. `CompressSpec` therefore takes the older table as a parameter, and `Compress` is proved against it.

Two behaviours of the source are worth stating plainly:
- A text of one repeated symbol gets the empty code `""`. The walk of the tree starts with `""` (src/Compressor.py:268), and a lone root is a leaf, which records the code it is given (src/Compressor.py:126-127). Its compressed file is therefore `[0x08, 0x00]`, a header of 8 and one byte of padding, whatever the text's length.
- The frequency dictionary ends in ascending order of count: the sort at src/Compressor.py:38-39 ascends, whatever the comment at src/Compressor.py:37 says.

## Model

| member | source | states |
|---|---|---|
| Nodes.Node.constructor | src/Node.py:6-12 | The node stores the symbol, count and children it is given, and its code starts as `""`. A node with a symbol and no children is a valid leaf standing for `Leaf(symbol, count)`. A node with no symbol over two valid children is a valid parent standing for the internal tree over their trees. |
| Nodes.Node.Default | src/Node.py:6 | The defaults give no symbol, count 0, no children and an empty code. |
| Nodes.LessOrder | src/Node.py:14-15 | `__lt__` is irreflexive, asymmetric and transitive. Two nodes neither of which is less than the other have equal counts. A list is sorted by the key `frequency` exactly when no node is `__lt__` a node before it. |
| Nodes.ValidFinite | src/Node.py:6-12 | A node of the shape the compressor builds is finite, and its count is the count of the tree it stands for. |
| Compression.Compressor.constructor | src/Compressor.py:11-14 | Both dictionaries start empty, and the text to compress is stored. |
| Compression.Compressor.CreateAlphabetFrequency | src/Compressor.py:16-40 | The loop's dictionary is the count of the prefix read so far. The result is the dictionary `FrequencyTable(content)`: the counts, sorted by symbol and then stably by count. |
| Frequency.CountAllSpec | src/Compressor.py:23-31 | The counting loop's dictionary has distinct keys. Each symbol's count is its number of occurrences, every count is positive, and the counts sum to the text's length. |
| Frequency.FrequencyTableSpec | src/Compressor.py:23-39 | The keys of the sorted dictionary are exactly the symbols of the text, each once. Each count equals the symbol's number of occurrences, every count is positive, and the counts sum to the text's length. The entries ascend by count, with ties ascending by symbol. |
| Frequency.FrequencyTableUnique | src/Compressor.py:34-39 | Any dictionary with those properties is the one the two sorts produce, so the order is fully determined. |
| Lists.SortByIsSorted | src/Compressor.py:38-39 | `sorted(..., key=k)` is ordered by `k`. |
| Lists.SortByStable | src/Compressor.py:38-39 | `sorted` is stable: the elements of any one key keep their relative order. |
| Lists.SortByThenBy | src/Compressor.py:34-39 | Sorting by count a list that ascends strictly by symbol gives a list ordered by count, with ties ascending by symbol. |
| Nodes.Node.Less | src/Node.py:14-15 | `__lt__` compares counts only. It is asymmetric, and two nodes neither of which is less than the other have equal counts. |
| Lists.SortBy | src/Compressor.py:34-39 | `sorted(..., key=k)` returns a permutation of its input, with the same length and the same multiset of elements (its order is stated by `SortByIsSorted` and `SortByStable`). The same sort serves the re-sort at src/Compressor.py:111. |
| Lists.RemoveFirst | src/Compressor.py:88-89 | `list.remove(x)` of a member leaves one element fewer, with exactly one occurrence of `x` removed from the multiset of elements. |
| Lists.RemoveFirstSpec | src/Compressor.py:88-89 | `list.remove(x)` drops the first occurrence of `x`: there is a position holding `x` with no `x` before it, and the result is the list before that position followed by the list after it, in order. |
| Frequency.Get | src/Compressor.py:31 | `d.get(c, 0)` of a key that is absent gives the default. For a present key it gives a count stored with that key in the dictionary. |
| Frequency.GetPresent | src/Compressor.py:31 | With distinct keys, `d.get(c, ...)` of a present key gives the count stored with it. |
| Frequency.Put | src/Compressor.py:31 | After `d[c] = v` the dictionary holds the entry `(c, v)`. |
| Frequency.PutKeys | src/Compressor.py:31 | `d[c] = v` keeps the keys in their order, and a new key is appended at the end. |
| Frequency.PutGet | src/Compressor.py:31 | After `d[c] = v`, looking up `c` gives `v`, and every other key gives what it gave before. |
| Frequency.PutDistinct | src/Compressor.py:31 | `d[c] = v` keeps every key stored once. |
| Trees.Step | src/Compressor.py:109-113 | One turn of the loop leaves one tree fewer in the forest (the total count and the leaves are kept, by `StepWeight` and `StepLeaves`). |
| Compression.Compressor.GetTwoSmallestNodes | src/Compressor.py:42-64 | The result is the first node of least count, then the first node of least count among the others. These are two different positions, `min1.frequency <= min2.frequency`, and `min1` is at most every count. |
| Nodes.TwoSmallestUnique | src/Compressor.py:52-62 | The pair chosen by the scan is unique to the list. |
| Nodes.TwoSmallestOfSorted | src/Compressor.py:111-112 | On a list sorted by count, the scan picks exactly `nodes[0]` and `nodes[1]`. |
| Compression.Compressor.MergeNodes | src/Compressor.py:66-90 | A fresh parent is made with no symbol, with `frequency = min1.frequency + min2.frequency`, `left = min1` and `right = min2`. It stands for `Merge` of their trees when both are valid. `min1.code` becomes "0" and `min2.code` becomes "1" (only "1" when both are the same node, as in the source). No other field of any node changes. The list loses the first occurrence of each node, keeps the others in order, and gains the parent as last element. |
| Compression.Compressor.CreateTree | src/Compressor.py:92-115 | An empty dictionary fails where `nodes[0]` would raise. Otherwise the root is a valid node standing for `HuffmanTree(af)`, the tree the merge loop reaches from one leaf per entry in dictionary order. |
| Compression.Compressor.MergeTwoSmallest | src/Compressor.py:109-113 | One turn of the loop turns a list of distinct nodes standing for a forest into a list of distinct nodes standing for `Step` of that forest. |
| Trees.StepWeight | src/Compressor.py:109-113 | A merge round keeps the total count of the forest. |
| Trees.StepLeaves | src/Compressor.py:109-113 | A merge round keeps the multiset of leaf symbols of the forest. |
| Trees.HuffmanInvariant | src/Compressor.py:109-115 | The loop ends with one tree whose count is the forest's total, whose leaves are the forest's leaves, and whose every parent's count is the sum of its children's. |
| Trees.HuffmanTreeSpec | src/Compressor.py:92-115 | For a non-empty dictionary the root's count is the sum of all counts. The leaves are exactly the dictionary's symbols, one per entry and each once, and the tree is well weighted. |
| Compression.Compressor.BuildEncodingTable | src/Compressor.py:117-132 | The field becomes the old table overridden by what the walk records. A symbol node records the accumulated code; any other node descends left with "0" and right with "1". |
| Nodes.NodeTableCodes | src/Compressor.py:117-132 | On a valid node the walk records the code table `Codes` of the tree the node stands for. |
| Trees.CodesKeys | src/Compressor.py:117-132 | The walk records a code for exactly the leaf symbols. |
| Trees.CodeIsPath | src/Compressor.py:117-132 | With distinct leaves, a symbol's recorded code is exactly its root-to-leaf path of labels; no other path leads to it. |
| Trees.CodesPrefixFree | src/Compressor.py:117-132 | With distinct leaves, no code is a prefix of another symbol's code. |
| Trees.CodesAreBits | src/Compressor.py:117-132 | Codes are strings of binary digits, and none is empty when the root is a parent. |
| Trees.LoneLeafCode | src/Compressor.py:126-127 | A root that is a leaf gets the empty code. |
| Compression.TableCovers | src/Compressor.py:265-268 | Every symbol of a non-empty text gets a binary code. The table after the walk gives each of those symbols its new code, whatever an earlier run left there. |
| Sidecar.Escape | src/Compressor.py:147 | The model's escape, standing for `repr(c)[1:-1]`, is one, two or four characters long and holds no line break. It is the character itself exactly when it is one character long, and starts with a backslash otherwise. |
| Compression.Compressor.WriteAlphabetFrequency | src/Compressor.py:134-148 | The text written is the count of entries and a line break. Then, for each entry in dictionary order, the escaped symbol, a space, the decimal count and a line break. |
| Sidecar.EscapeSpec | src/Compressor.py:147 | The escape of a symbol is never empty and holds no line break. It holds no space unless the symbol is a space, and it reads back as the symbol. |
| Sidecar.NatToString | src/Compressor.py:145-148 | `str(n)` of a count is a non-empty string of decimal digits. |
| Sidecar.SidecarHeadDigit | src/Compressor.py:145 | The frequency file starts with a decimal digit, the first digit of the number of entries. |
| Sidecar.ParseNatToString | src/Compressor.py:148 | A decimal count reads back as the same count. |
| Sidecar.SidecarLines | src/Compressor.py:145-148 | The frequency file has exactly one line break more than it has entries. |
| Sidecar.ParseSidecarText | src/Compressor.py:144-148 | The frequency file reads back as the dictionary it was written from, entries and order. |
| Compression.FirstUnknown | src/Compressor.py:161-162 | It finds nothing exactly when every symbol of the text has a code. Otherwise it returns a symbol of the text without a code. |
| Compression.Compressor.Encode | src/Compressor.py:150-164 | The loop's bits are the codes of the prefix read so far. The lookup fails at the first symbol with no code. Otherwise the result is the padded concatenation of the codes of all symbols in order. |
| Trees.BodyLength | src/Compressor.py:160-162 | The concatenated body is as long as the sum of the code lengths of the text's symbols. |
| Trees.BodyOverride | src/Compressor.py:162 | Entries left in the table by an earlier run do not change the body once every symbol has a new code. |
| Trees.DecodeBody | src/Compressor.py:160-162 | Walking the tree over the concatenated codes, once per symbol, reads back the text and leaves what follows untouched. |
| Compression.Compressor.PadEncodedText | src/Compressor.py:166-182 | The loop appends zeros one at a time. The result is the eight-digit pad count, then the text, then that many zeros. |
| Bits.PaddedSpec | src/Compressor.py:176-181 | The pad count is in 1..8, and is 8 exactly when the text is already whole bytes. The result is whole bytes and its first eight bits read as the pad count. The text follows unchanged, and the rest is zeros. |
| Bits.Format08bSpec | src/Compressor.py:180 | `"{0:08b}"` of a value below 256 is eight binary digits that read as the value. |
| Bits.Format08b | src/Compressor.py:180 | `"{0:08b}".format(n)` is a string of at least eight binary digits, exactly eight for a value below 256. |
| Bits.BitsValue | src/Compressor.py:201 | `int(s, 2)` of `n` binary digits is one of the `2^n` values below `2^n`; `Format08bOfBits` and `BytesToBitsGroup` show it reads back what was written. |
| Bits.UnpadPadded | src/Compressor.py:176-181 | Reading the header and dropping it and the zeros gives back the unpadded text. |
| Compression.Compressor.GetByteArray | src/Compressor.py:184-202 | A bit string that is not whole bytes fails, as the `exit` does. Otherwise the result is the grouping into bytes. |
| Bits.GroupSpec | src/Compressor.py:198-202 | For whole bytes there are `len/8` bytes, and byte `i` is the big-endian value of bits `8i..8i+7`. |
| Bits.BytesToBitsGroup | src/Compressor.py:198-202 | Writing the bytes back out as eight bits each gives the bit string. |
| Bits.GroupBytesToBits | src/Compressor.py:198-202 | Every byte sequence is the grouping of its own bits, so writing bytes out as bits loses nothing. |
| Compression.Compressor.WriteCompressedFile | src/Compressor.py:204-215 | The bytes are the grouping of the encoded text, or the failure of the encoding or of the grouping. |
| Compression.Compressor.Compress | src/Compressor.py:260-271 | The dictionary field becomes the frequency table. The result is `CompressSpec` of the text and of the table before the call. The code table is extended by the new tree's codes, or left alone for an empty text. |
| Compression.CompressOutcome | src/Compressor.py:260-271 | A run fails exactly on an empty text. Otherwise its bytes spell out the padded codes of the text and its frequency file holds the sorted dictionary. When the counting and the encoding read the same text, neither the `KeyError` nor the `exit` can happen. |
| Compression.CompressRoundTrip | src/Compressor.py:260-271 | For a non-empty text the run succeeds, and decompressing the two artifacts gives back the text: nothing is lost. |
| Compression.SingleSymbolPayload | src/Compressor.py:264-271 | A text of one repeated symbol compresses to the bytes `[8, 0]` and a one-entry frequency file, whatever its length. |
| Paths.ReplaceAbsent | src/Compressor.py:256-257 | `str.replace` leaves a string without an occurrence of the pattern unchanged. |
| Paths.ReplaceLonger | src/Compressor.py:256-257 | A replacement longer than the pattern makes a string holding the pattern longer. |
| Paths.ReplaceDistinct | src/Compressor.py:256-257 | Two different replacements of the same length give different results on a string holding the pattern. |
| Paths.Replace | src/Compressor.py:256-257 | `str.replace` with a replacement at least as long as the pattern never shortens the string. |
| Paths.OutputPaths | src/Compressor.py:246-258 | Both output names are at least as long as the input name. |
| Paths.OutputPathsOverwriteInput | src/Compressor.py:256-257 | A name without ".txt" is returned unchanged as both the compressed file's name and the frequency file's name. |
| Paths.OutputPathsNotes | src/Compressor.py:256-257 | For the input name "notes", both output names are "notes". |
| Compression.OverwrittenInputFails | src/Compressor.py:211-212 | When the frequency file has been written over the input, the text read back starts with a decimal digit. For a text without digits the encoding then fails on that digit with the `KeyError` of src/Compressor.py:162. |
| Paths.FixedOutputPaths | src/Compressor.py:246-258 | The corrected names: the compressed file's name, the frequency file's name and the input name are pairwise different. |
| Example.CompressAaab | src/Compressor.py:260-271 | The text `"aaab"` compresses to the bytes `[0x04, 0xE0]` and the frequency file `"2\nb 1\na 3\n"`. |

## Left out

- File reading: the `open`/`read(1)` loop of `__create_alphabet_frequency` and the `read_file` call of `__write_compressed_file` are replaced by the `content` field. The `utils` module is not part of this model.
- The source reads the input file twice: the counting with `open(self.path, "r")` and `read(1)` (src/Compressor.py:26-31), the encoding with `read_file(self.path)` (src/Compressor.py:211). The model feeds both from the one `content` field, so it assumes both reads return the same text. A file changed between the two reads, or a `read_file` that decodes or translates line endings differently, can meet a symbol without a code and raise the `KeyError` at src/Compressor.py:162, or silently encode a text other than the one counted, into a payload the frequency file does not describe; `CompressOutcome` and `CompressRoundTrip` do not cover that case.
- File writing: the writes in `__write_alphabet_frequency` and `__write_compressed_file` become return values.
- The frequency file is written before the compressed file, so when the encoding or the grouping fails, the source has already written the frequency file. The `KeyError` of `__encode` (src/Compressor.py:212) leaves before the compressed file is opened, so an earlier file of that name is left untouched. The grouping runs inside the `"wb"` open (src/Compressor.py:214-215), so its `exit(0)` also leaves an empty compressed file behind. The model's failure carries neither artifact. `CompressOutcome` shows that these failures cannot happen.
- File names: `Compressor` and `CompressSpec` take the text, not a path. They assume that the input name contains ".txt", so that the two output names differ from the input and from each other. What happens otherwise is described under "## Findings", with `Paths` modelling `__get_output_path`.
- Paths.Replace: its own contract states only a length bound. Its effect on names is stated by `ReplaceAbsent`, `ReplaceLonger` and `ReplaceDistinct`.
- Paths.OutputPaths: its own contract states only a length bound. Its results are stated by `OutputPathsOverwriteInput` and, for names with ".txt", by `FixedOutputPaths` and `FixedOutputPathsAgree`.
- `__compute_compression_ratio`, `__compute_average_compressed_size_per_char` and the `print`s of `compress` are left out: they do floating-point arithmetic on file sizes and console output.
- The `print` and `exit(0)` of `__get_byte_array` are modelled as the `MisalignedBitstream` failure. The crash at `nodes[0]` is modelled as `EmptyAlphabet`, and the `KeyError` as `UnknownSymbol`.
- The `parent` field of `Node` and its assignments in `__merge_nodes` are left out: nothing reads them, and leaving them out keeps the node graph acyclic.
- Compression.Compressor.MergeNodes: the source removes from and appends to the caller's list in place. The model returns the new list instead. The only caller rebinds its list to a fresh sorted copy on every turn, so no other holder of the list exists to see the difference.
- Compression.Compressor.MergeNodes: requires both nodes to be in the list, where `list.remove` would raise `ValueError` otherwise. Its only caller passes two members.
- Compression.Compressor.GetTwoSmallestNodes: requires at least two nodes, where the source would raise `IndexError` at `nodes[1]`. Its only caller runs it while the list is longer than one.
- Compression.Compressor.GetByteArray: requires a string of binary digits, where `int(byte, 2)` raises `ValueError` on most other strings (it accepts a few, such as `"0b000001"`, `"+0000001"` or `" 0000001"`, which the model does not cover). The bits it receives are always binary (`EncodeSpecBits`).
- Compression.Compressor.WriteCompressedFile: requires the codes of the text's symbols to be binary digits, where a code with another character would make `int(byte, 2)` at src/Compressor.py:201 raise on most chunks or read a chunk the model does not cover. Its only caller, `compress`, always meets this (`TableCovers`).
- Compression.Compressor.BuildEncodingTable: requires a finite node graph, which every node built by the compressor is. The recursion would not end on a cyclic one.
- Compression.Compressor.CreateTree: the number of merges, one fewer than the number of distinct symbols, follows from each turn shortening the list by one, but is not stated as a postcondition of its own.
- Compression.Compressor.MergeTwoSmallest has no counterpart method in the source. It is the body of the `while` loop of `__create_tree`, verified as one unit.
- Python's `sorted` is modelled as a stable insertion sort. Every stable sort by the same key gives the same list, so the order is the source's.
- `__lt__` is modelled as `Nodes.Node.Less`, but the sorts of the source use the key `frequency` and never call it. `Nodes.LessOrder` relates the two.
- Sidecar.Escape: follows `repr` for code points below 0x100. Above, it shows every character bare, where `repr` escapes those Python considers unprintable.
- Compression.Decompress: the repository has no decompressor. This inverse exists only to state that compression is lossless.
- `tests/tests.py` compares output files with reference files that are not part of this model.

## Findings

| source | as written | input that shows it | evidently intended | confidence | as-written member | corrected member |
|---|---|---|---|---|---|---|
| src/Compressor.py:256-257 | `replace(".txt", ...)` returns a name without ".txt" unchanged, so both output names equal the input name. The frequency file is written over the input (src/Compressor.py:144), and the text read back for encoding (src/Compressor.py:211) is the frequency file. Its first symbol is a digit, which `Compression.OverwrittenInputFails` shows has no code when the text has none, so the run stops with `KeyError` after destroying the input. | the input name "notes" (`Paths.OutputPathsNotes`) holding the text "aaab" | output names that differ from the input and from each other, for instance by appending the suffixes when ".txt" is absent | not executed | Paths.OutputPathsOverwriteInput | Paths.FixedOutputPaths |
