/** The `alphabet_frequency` dictionary of the compressor: an insertion-ordered
    map from symbol to count, modelled as a sequence of entries with distinct
    symbols, with the two sorts that fix its order before tree building. */
module Frequency {
  import opened Lists

  /** One item of the dictionary: a symbol and its count. */
  datatype Entry = Entry(ch: char, freq: nat)

  /** Sort key of `sorted(..., key=lambda item: item[0])`: the code point. */
  function EntryChar(e: Entry): int { e.ch as int }

  /** Sort key of `sorted(..., key=lambda item: item[1])`. */
  function EntryFreq(e: Entry): int { e.freq }

  function EntrySymbol(e: Entry): char { e.ch }

  /** The symbols of `d`, in order. */
  function Keys(d: seq<Entry>): seq<char> {
    if d == [] then [] else [d[0].ch] + Keys(d[1..])
  }

  /** A dictionary holds each key at most once. */
  ghost predicate DistinctKeys(d: seq<Entry>) {
    InjectiveOn(d, EntrySymbol)
  }

  /** `d.get(c, default)`. */
  function Get(d: seq<Entry>, c: char, default: nat): (r: nat)
    ensures c !in Keys(d) ==> r == default
    ensures c in Keys(d) ==> Entry(c, r) in d
  {
    if d == [] then default
    else if d[0].ch == c then d[0].freq
    else Get(d[1..], c, default)
  }

  /** `d[c] = v`: an existing key keeps its place and takes the new value; a
      new key goes at the end. */
  function Put(d: seq<Entry>, c: char, v: nat): (r: seq<Entry>)
    ensures Entry(c, v) in r
  {
    if d == [] then [Entry(c, v)]
    else if d[0].ch == c then [Entry(c, v)] + d[1..]
    else [d[0]] + Put(d[1..], c, v)
  }

  /** The dictionary built by the counting loop once it has read `s`: each
      symbol read does `d[c] = d.get(c, 0) + 1`. */
  function CountAll(s: string): seq<Entry> {
    if s == [] then []
    else
      var d := CountAll(s[..|s| - 1]);
      var c := s[|s| - 1];
      Put(d, c, Get(d, c, 0) + 1)
  }

  /** The dictionary `__create_alphabet_frequency` returns for the text `s`:
      the counts sorted by symbol, then stably by count. */
  function FrequencyTable(s: string): seq<Entry> {
    SortBy(SortBy(CountAll(s), EntryChar), EntryFreq)
  }

  lemma {:induction false} KeysMember(d: seq<Entry>, c: char)
    ensures c in Keys(d) <==> exists e :: e in d && e.ch == c
  {
    if d != [] {
      KeysMember(d[1..], c);
      assert d == [d[0]] + d[1..];
      assert forall e :: e in d <==> e == d[0] || e in d[1..];
    }
  }

  /** With distinct keys, a lookup answers with the value stored for it. */
  lemma {:induction false} GetPresent(d: seq<Entry>, e: Entry, default: nat)
    requires DistinctKeys(d) && e in d
    ensures Get(d, e.ch, default) == e.freq
  {
    if d[0] != e {
      assert InjectiveOn(d[1..], EntrySymbol);
      assert e in d[1..];
      var m :| 0 <= m < |d[1..]| && d[1..][m] == e;
      assert d[m + 1] == e;
      assert d[0].ch != e.ch;
      GetPresent(d[1..], e, default);
    }
  }

  /** Two dictionaries with distinct keys and the same entries answer every
      lookup alike, whatever their order. */
  lemma GetPermutation(a: seq<Entry>, b: seq<Entry>, c: char, default: nat)
    requires DistinctKeys(a) && DistinctKeys(b) && multiset(a) == multiset(b)
    ensures Get(a, c, default) == Get(b, c, default)
  {
    KeysMember(a, c);
    KeysMember(b, c);
    if e :| e in a && e.ch == c {
      assert e in multiset(a);
      GetPresent(a, e, default);
      GetPresent(b, e, default);
    } else {
      forall e | e in b ensures e.ch != c {
        assert e in multiset(b);
      }
    }
  }

  lemma {:induction false} PutGet(d: seq<Entry>, c: char, v: nat, c': char, default: nat)
    ensures Get(Put(d, c, v), c', default) == if c' == c then v else Get(d, c', default)
  {
    if d != [] && d[0].ch != c {
      PutGet(d[1..], c, v, c', default);
    }
  }

  /** `d[c] = v` keeps the order of the keys; a new key goes at the end. */
  lemma {:induction false} PutKeys(d: seq<Entry>, c: char, v: nat)
    ensures Keys(Put(d, c, v)) == if c in Keys(d) then Keys(d) else Keys(d) + [c]
  {
    var r := Put(d, c, v);
    if d == [] {
      assert r[1..] == [];
    } else if d[0].ch == c {
      assert r[1..] == d[1..];
    } else {
      PutKeys(d[1..], c, v);
      assert r[1..] == Put(d[1..], c, v);
    }
  }

  lemma PutDistinct(d: seq<Entry>, c: char, v: nat)
    requires DistinctKeys(d)
    ensures DistinctKeys(Put(d, c, v))
  {
    var r := Put(d, c, v);
    PutKeys(d, c, v);
    KeysIndex(d);
    KeysIndex(r);
    var k, kr := Keys(d), Keys(r);
    forall i, j | 0 <= i < j < |r| ensures r[i].ch != r[j].ch {
      assert kr[i] == r[i].ch && kr[j] == r[j].ch;
      if c !in k && j == |k| {
        assert kr[i] == k[i];
      } else {
        assert kr[i] == k[i] == d[i].ch && kr[j] == k[j] == d[j].ch;
      }
    }
  }

  /** The key at position `j` is the symbol of entry `j`. */
  lemma {:induction false} KeysIndex(d: seq<Entry>)
    ensures |Keys(d)| == |d|
    ensures forall j :: 0 <= j < |d| ==> Keys(d)[j] == d[j].ch
  {
    if d != [] {
      KeysIndex(d[1..]);
    }
  }

  lemma {:induction false} PutPositive(d: seq<Entry>, c: char, v: nat)
    requires forall e :: e in d ==> e.freq > 0
    requires v > 0
    ensures forall e :: e in Put(d, c, v) ==> e.freq > 0
  {
    if d != [] && d[0].ch != c {
      PutPositive(d[1..], c, v);
    }
  }

  lemma {:induction false} PutSum(d: seq<Entry>, c: char, v: nat)
    ensures SumOf(Put(d, c, v), EntryFreq) == SumOf(d, EntryFreq) - Get(d, c, 0) + v
  {
    var r := Put(d, c, v);
    if d == [] {
      assert r[1..] == [];
    } else if d[0].ch == c {
      assert r[1..] == d[1..];
    } else {
      PutSum(d[1..], c, v);
      assert r[1..] == Put(d[1..], c, v);
    }
  }

  /** The counting loop's dictionary: distinct keys, each count the number of
      occurrences of its symbol, no zero count, and counts summing to the
      length of the text. */
  lemma {:induction false} CountAllSpec(s: string)
    ensures DistinctKeys(CountAll(s))
    ensures forall c :: Get(CountAll(s), c, 0) == multiset(s)[c]
    ensures forall e :: e in CountAll(s) ==> e.freq > 0
    ensures SumOf(CountAll(s), EntryFreq) == |s|
  {
    if s != [] {
      var p := s[..|s| - 1];
      assert s == p + [s[|s| - 1]];
      CountAllSpec(p);
      CountStep(p, s[|s| - 1]);
    }
  }

  /** One turn of the counting loop keeps what `CountAllSpec` states. */
  lemma CountStep(p: string, c: char)
    requires DistinctKeys(CountAll(p))
    requires forall c' :: Get(CountAll(p), c', 0) == multiset(p)[c']
    requires forall e :: e in CountAll(p) ==> e.freq > 0
    requires SumOf(CountAll(p), EntryFreq) == |p|
    ensures DistinctKeys(CountAll(p + [c]))
    ensures forall c' :: Get(CountAll(p + [c]), c', 0) == multiset(p + [c])[c']
    ensures forall e :: e in CountAll(p + [c]) ==> e.freq > 0
    ensures SumOf(CountAll(p + [c]), EntryFreq) == |p + [c]|
  {
    var d := CountAll(p);
    var v := Get(d, c, 0) + 1;
    assert (p + [c])[..|p|] == p;
    assert CountAll(p + [c]) == Put(d, c, v);
    PutDistinct(d, c, v);
    PutPositive(d, c, v);
    PutSum(d, c, v);
    forall c' ensures Get(Put(d, c, v), c', 0) == multiset(p + [c])[c'] {
      PutGet(d, c, v, c', 0);
    }
  }

  /** Sorting by code point and deciding distinctness agree. */
  lemma StrictByChar(d: seq<Entry>)
    requires SortedBy(d, EntryChar) && DistinctKeys(d)
    ensures forall i, j :: 0 <= i < j < |d| ==> EntryChar(d[i]) < EntryChar(d[j])
  {
    forall i, j | 0 <= i < j < |d| ensures EntryChar(d[i]) < EntryChar(d[j]) {
      assert d[i].ch != d[j].ch;
    }
  }

  /** What `__create_alphabet_frequency` promises: the keys are exactly the
      symbols of the text, each once; each count is that symbol's number of
      occurrences; the counts sum to the text's length; and the entries are
      ordered by count, ties by ascending symbol. */
  lemma FrequencyTableSpec(s: string)
    ensures DistinctKeys(FrequencyTable(s))
    ensures forall c :: Get(FrequencyTable(s), c, 0) == multiset(s)[c]
    ensures forall c :: c in Keys(FrequencyTable(s)) <==> c in s
    ensures forall e :: e in FrequencyTable(s) ==> e.freq > 0
    ensures SumOf(FrequencyTable(s), EntryFreq) == |s|
    ensures LexSorted(FrequencyTable(s), EntryFreq, EntryChar)
  {
    var d := CountAll(s);
    var m := SortBy(d, EntryChar);
    var r := SortBy(m, EntryFreq);
    CountAllSpec(s);
    SortByInjective(d, EntryChar, EntrySymbol);
    SortByInjective(m, EntryFreq, EntrySymbol);
    forall c ensures Get(r, c, 0) == multiset(s)[c] {
      GetPermutation(d, r, c, 0);
    }
    forall e | e in r ensures e.freq > 0 {
      assert e in multiset(r);
      assert e in d;
    }
    KeysOfCounts(r, s);
    SumOfSortBy(d, EntryChar, EntryFreq);
    SumOfSortBy(m, EntryFreq, EntryFreq);
    SortByIsSorted(d, EntryChar);
    StrictByChar(m);
    SortByThenBy(m, EntryFreq, EntryChar);
  }

  /** A dictionary of positive counts of `s` has exactly the symbols of `s`
      as keys. */
  lemma KeysOfCounts(r: seq<Entry>, s: string)
    requires forall c :: Get(r, c, 0) == multiset(s)[c]
    requires forall e :: e in r ==> e.freq > 0
    ensures forall c :: c in Keys(r) <==> c in s
  {
    forall c ensures c in Keys(r) <==> c in s {
      assert Get(r, c, 0) == multiset(s)[c];
      if c in Keys(r) {
        assert Entry(c, Get(r, c, 0)) in r;
      }
    }
  }

  lemma {:induction false} LexSortedHead(a: seq<Entry>, x: Entry)
    requires LexSorted(a, EntryFreq, EntryChar) && x in a && x != a[0]
    ensures a[0].freq < x.freq || (a[0].freq == x.freq && a[0].ch < x.ch)
  {
    var j :| 0 <= j < |a| && a[j] == x;
    assert j > 0;
  }

  /** The tail of a non-empty sequence of entries ordered by count with
      ties by symbol holds exactly its entries other than the head. */
  lemma LexSortedTail(a: seq<Entry>, e: Entry)
    requires LexSorted(a, EntryFreq, EntryChar) && a != []
    ensures e in a[1..] <==> e in a && e != a[0]
  {
    if e in a[1..] {
      var j :| 0 <= j < |a[1..]| && a[1..][j] == e;
      assert a[j + 1] == e;
    }
    if e in a && e != a[0] {
      var k :| 0 <= k < |a| && a[k] == e;
      assert a[1..][k - 1] == e;
    }
  }

  /** Two sequences of entries, each ordered by count with ties by symbol,
      holding the same entries, are the same sequence. */
  lemma {:induction false} LexSortedUnique(a: seq<Entry>, b: seq<Entry>)
    requires LexSorted(a, EntryFreq, EntryChar) && LexSorted(b, EntryFreq, EntryChar)
    requires forall e :: e in a <==> e in b
    ensures a == b
    decreases |a|
  {
    if a == [] {
      NoMembers(b);
    } else {
      LexSortedSameHead(a, b);
      forall e ensures e in a[1..] <==> e in b[1..] {
        LexSortedTail(a, e);
        LexSortedTail(b, e);
      }
      assert LexSorted(a[1..], EntryFreq, EntryChar) && LexSorted(b[1..], EntryFreq, EntryChar);
      LexSortedUnique(a[1..], b[1..]);
      assert a == [a[0]] + a[1..] && b == [b[0]] + b[1..];
    }
  }

  /** A sequence without members is empty. */
  lemma NoMembers(b: seq<Entry>)
    requires forall e :: e !in b
    ensures b == []
  {
    forall e ensures multiset(b)[e] == 0 {
      assert e !in b;
    }
    assert multiset(b) == multiset{};
    assert |b| == |multiset(b)|;
  }

  /** Two non-empty sequences ordered by count with ties by symbol, holding
      the same entries, start alike. */
  lemma LexSortedSameHead(a: seq<Entry>, b: seq<Entry>)
    requires LexSorted(a, EntryFreq, EntryChar) && LexSorted(b, EntryFreq, EntryChar)
    requires forall e :: e in a <==> e in b
    requires a != []
    ensures b != [] && a[0] == b[0]
  {
    assert a[0] in a && a[0] in b;
    if a[0] != b[0] {
      LexSortedHead(b, a[0]);
      assert b[0] in a;
      LexSortedHead(a, b[0]);
      assert false;
    }
  }

  /** The properties of `FrequencyTableSpec` leave no freedom: any dictionary
      with distinct keys, positive counts equal to the occurrence counts of
      `s`, ordered by count and then symbol, is `FrequencyTable(s)`. */
  lemma FrequencyTableUnique(s: string, r: seq<Entry>)
    requires DistinctKeys(r)
    requires forall c :: Get(r, c, 0) == multiset(s)[c]
    requires forall e :: e in r ==> e.freq > 0
    requires LexSorted(r, EntryFreq, EntryChar)
    ensures r == FrequencyTable(s)
  {
    var t := FrequencyTable(s);
    FrequencyTableSpec(s);
    forall e ensures e in r <==> e in t {
      if e in r {
        GetPresent(r, e, 0);
        assert Get(t, e.ch, 0) == e.freq > 0;
        SameEntry(t, e);
      }
      if e in t {
        GetPresent(t, e, 0);
        assert Get(r, e.ch, 0) == e.freq > 0;
        SameEntry(r, e);
      }
    }
    LexSortedUnique(r, t);
  }

  /** A positive lookup result comes from an entry that is present. */
  lemma SameEntry(d: seq<Entry>, e: Entry)
    requires DistinctKeys(d)
    requires Get(d, e.ch, 0) == e.freq > 0
    ensures e in d
  {
    assert e.ch in Keys(d);
  }
}
