/** The frequency file `__write_alphabet_frequency` writes beside the
    compressed file: the number of symbols on the first line, then one line
    per symbol holding `repr(symbol)[1:-1]`, a space and its count, in the
    order of the frequency dictionary. A parser for that text is given as
    its inverse. */
module Sidecar {
  import opened Errors
  import opened Lists
  import opened Frequency

  function HexDigit(v: nat): char
    requires v < 16
  {
    if v < 10 then ('0' as int + v) as char else ('a' as int + v - 10) as char
  }

  function HexValue(h: char): Option<nat> {
    if '0' <= h <= '9' then Some(h as int - '0' as int)
    else if 'a' <= h <= 'f' then Some(h as int - 'a' as int + 10)
    else None
  }

  /** Whether `repr` shows a character of the range 0..0xff as itself:
      control characters, DEL, the C1 controls, the no-break space and the
      soft hyphen are not printable. */
  predicate Printable(c: char) {
    0x20 <= c as int && !(0x7f <= c as int <= 0xa0) && c as int != 0xad
  }

  /** `repr(c)[1:-1]` for a one-character string: the usual escapes for
      newline, tab, carriage return and backslash, `\xNN` in lower-case hex
      for the other unprintable characters below 0x100, and the character
      itself otherwise (a quote is shown bare, since `repr` picks the other
      quote as delimiter). */
  function Escape(c: char): (r: string)
    ensures |r| == 1 || |r| == 2 || |r| == 4
    ensures '\n' !in r
    ensures |r| == 1 <==> r == [c]
    ensures |r| > 1 ==> r[0] == '\\'
  {
    if c == '\n' then "\\n"
    else if c == '\t' then "\\t"
    else if c == '\r' then "\\r"
    else if c == '\\' then "\\\\"
    else if c as int < 0x100 && !Printable(c) then
      ['\\', 'x', HexDigit(c as int / 16), HexDigit(c as int % 16)]
    else [c]
  }

  /** Reads back one escaped symbol. */
  function Unescape(s: string): Option<char> {
    if |s| == 1 then (if s[0] == '\\' then None else Some(s[0]))
    else if s == "\\n" then Some('\n')
    else if s == "\\t" then Some('\t')
    else if s == "\\r" then Some('\r')
    else if s == "\\\\" then Some('\\')
    else if |s| == 4 && s[0] == '\\' && s[1] == 'x' then
      match (HexValue(s[2]), HexValue(s[3]))
      case (Some(hi), Some(lo)) =>
        if hi < 16 && lo < 16 then Some((16 * hi + lo) as char) else None
      case _ => None
    else None
  }

  lemma HexRoundTrip(v: nat)
    requires v < 16
    ensures HexValue(HexDigit(v)) == Some(v)
  {
  }

  /** An escape is never empty, holds no line break and no space unless it
      is the space character itself, and reads back as its character. */
  lemma EscapeSpec(c: char)
    ensures |Escape(c)| >= 1
    ensures '\n' !in Escape(c)
    ensures c != ' ' ==> ' ' !in Escape(c)
    ensures Unescape(Escape(c)) == Some(c)
  {
    if c as int < 0x100 && !Printable(c) && c != '\n' && c != '\t' && c != '\r' && c != '\\' {
      var v := c as int;
      HexRoundTrip(v / 16);
      HexRoundTrip(v % 16);
      assert (16 * (v / 16) + v % 16) as char == c;
    }
  }

  function DigitChar(v: nat): char
    requires v < 10
  {
    ('0' as int + v) as char
  }

  predicate IsDigit(c: char) { '0' <= c <= '9' }

  /** `str(n)` for a count: decimal digits, no leading zero. */
  function NatToString(n: nat): (r: string)
    ensures |r| >= 1
    ensures forall i :: 0 <= i < |r| ==> IsDigit(r[i])
  {
    if n < 10 then [DigitChar(n)] else NatToString(n / 10) + [DigitChar(n % 10)]
  }

  /** The value of a string of decimal digits. */
  function DigitsValue(s: string): nat
    requires forall i :: 0 <= i < |s| ==> IsDigit(s[i])
  {
    if s == [] then 0
    else
      assert IsDigit(s[|s| - 1]);
      10 * DigitsValue(s[..|s| - 1]) + (s[|s| - 1] as int - '0' as int)
  }

  function ParseNat(s: string): Option<nat> {
    if s != [] && forall i :: 0 <= i < |s| ==> IsDigit(s[i]) then Some(DigitsValue(s)) else None
  }

  lemma {:induction false} NatToStringValue(n: nat)
    ensures DigitsValue(NatToString(n)) == n
  {
    if n >= 10 {
      NatToStringValue(n / 10);
      var r := NatToString(n);
      assert r[..|r| - 1] == NatToString(n / 10);
    }
  }

  /** A count written with `str` reads back as the same count. */
  lemma ParseNatToString(n: nat)
    ensures ParseNat(NatToString(n)) == Some(n)
  {
    NatToStringValue(n);
  }

  /** One line of the file after the first. */
  function EntryLine(e: Entry): string {
    Escape(e.ch) + " " + NatToString(e.freq) + "\n"
  }

  /** The lines the loop of `__write_alphabet_frequency` writes, in order. */
  function EntryLines(d: seq<Entry>): string {
    if d == [] then [] else EntryLines(d[..|d| - 1]) + EntryLine(d[|d| - 1])
  }

  /** The whole text of the frequency file. */
  function SidecarText(d: seq<Entry>): string {
    NatToString(|d|) + "\n" + EntryLines(d)
  }

  /** The frequency file starts with the digits of the number of entries. */
  lemma SidecarHeadDigit(d: seq<Entry>)
    ensures SidecarText(d) != [] && IsDigit(SidecarText(d)[0])
  {
    var n := NatToString(|d|);
    assert SidecarText(d) == n + ("\n" + EntryLines(d));
    assert SidecarText(d)[0] == n[0];
  }

  lemma {:induction false} EntryLinesCons(e: Entry, d: seq<Entry>)
    ensures EntryLines([e] + d) == EntryLine(e) + EntryLines(d)
  {
    var r := [e] + d;
    if d == [] {
      assert r[..0] == [];
    } else {
      var init, last := d[..|d| - 1], d[|d| - 1];
      assert r[..|r| - 1] == [e] + init;
      assert r[|r| - 1] == last;
      EntryLinesCons(e, init);
      var x, y, z := EntryLine(e), EntryLines(init), EntryLine(last);
      assert EntryLines(r) == (x + y) + z;
      assert EntryLines(d) == y + z;
      Assoc(x, y, z);
    }
  }

  /** Each entry line ends in the only line break it holds. */
  lemma {:induction false} EntryLinesBreaks(d: seq<Entry>)
    ensures multiset(EntryLines(d))['\n'] == |d|
  {
    if d != [] {
      var e := d[|d| - 1];
      EntryLinesBreaks(d[..|d| - 1]);
      ParseEntryLine(e);
      var line := Escape(e.ch) + " " + NatToString(e.freq);
      assert multiset(line)['\n'] == 0;
    }
  }

  /** The frequency file has one line per entry after the count line. */
  lemma SidecarLines(d: seq<Entry>)
    ensures multiset(SidecarText(d))['\n'] == |d| + 1
  {
    NatToStringNoBreak(|d|);
    assert multiset(NatToString(|d|))['\n'] == 0;
    EntryLinesBreaks(d);
  }

  // ---------------------------------------------------------------------
  // Reading the file back

  /** The text up to the first line break, and the text after it. */
  function SplitLine(s: string): Option<(string, string)> {
    if s == [] then None
    else if s[0] == '\n' then Some(([], s[1..]))
    else match SplitLine(s[1..])
      case None => None
      case Some((line, rest)) => Some(([s[0]] + line, rest))
  }

  lemma {:induction false} SplitLineOf(line: string, rest: string)
    requires '\n' !in line
    ensures SplitLine(line + "\n" + rest) == Some((line, rest))
  {
    if line == [] {
      assert line + "\n" + rest == "\n" + rest;
    } else {
      assert (line + "\n" + rest)[1..] == line[1..] + "\n" + rest;
      SplitLineOf(line[1..], rest);
      assert [line[0]] + line[1..] == line;
    }
  }

  /** The position of the last space of `s`. */
  function LastSpace(s: string): (r: Option<nat>)
    ensures r.Some? ==> r.value < |s|
  {
    if s == [] then None
    else if s[|s| - 1] == ' ' then Some(|s| - 1)
    else LastSpace(s[..|s| - 1])
  }

  lemma {:induction false} LastSpaceOf(a: string, b: string)
    requires ' ' !in b
    ensures LastSpace(a + " " + b) == Some(|a|)
  {
    if b != [] {
      var s := a + " " + b;
      assert s[..|s| - 1] == a + " " + b[..|b| - 1];
      LastSpaceOf(a, b[..|b| - 1]);
    } else {
      assert a + " " + b == a + " ";
    }
  }

  /** One line: the symbol is what precedes the last space, the count what
      follows it. */
  function ParseEntry(line: string): Option<Entry> {
    match LastSpace(line)
    case None => None
    case Some(k) =>
      match (Unescape(line[..k]), ParseNat(line[k + 1..]))
      case (Some(c), Some(f)) => Some(Entry(c, f))
      case _ => None
  }

  /** `n` entry lines and nothing after them. */
  function ParseEntries(s: string, n: nat): Option<seq<Entry>>
    decreases n
  {
    if n == 0 then (if s == [] then Some([]) else None)
    else match SplitLine(s)
      case None => None
      case Some((line, rest)) =>
        match (ParseEntry(line), ParseEntries(rest, n - 1))
        case (Some(e), Some(es)) => Some([e] + es)
        case _ => None
  }

  /** Reads a whole frequency file. */
  function ParseSidecar(s: string): Option<seq<Entry>> {
    match SplitLine(s)
    case None => None
    case Some((first, rest)) =>
      match ParseNat(first)
      case None => None
      case Some(n) => ParseEntries(rest, n)
  }

  lemma NatToStringNoBreak(n: nat)
    ensures '\n' !in NatToString(n) && ' ' !in NatToString(n)
  {
    var r := NatToString(n);
    forall i | 0 <= i < |r| ensures r[i] != '\n' && r[i] != ' ' {
      assert IsDigit(r[i]);
    }
  }

  /** An entry line is its text and a line break; the text holds no line
      break and reads back as the entry. */
  lemma ParseEntryLine(e: Entry)
    ensures EntryLine(e) == (Escape(e.ch) + " " + NatToString(e.freq)) + "\n"
    ensures '\n' !in Escape(e.ch) + " " + NatToString(e.freq)
    ensures ParseEntry(Escape(e.ch) + " " + NatToString(e.freq)) == Some(e)
  {
    var a, b := Escape(e.ch), NatToString(e.freq);
    EscapeSpec(e.ch);
    NatToStringNoBreak(e.freq);
    var line := a + " " + b;
    forall i | 0 <= i < |line| ensures line[i] != '\n' {
      if i < |a| { assert line[i] == a[i]; }
      else if i > |a| { assert line[i] == b[i - |a| - 1]; }
    }
    LastSpaceOf(a, b);
    assert line[..|a|] == a && line[|a| + 1..] == b;
    ParseNatToString(e.freq);
  }

  lemma {:induction false} ParseEntriesLines(d: seq<Entry>)
    ensures ParseEntries(EntryLines(d), |d|) == Some(d)
  {
    if d != [] {
      var e, tail := d[0], d[1..];
      EntryLinesCons(e, tail);
      assert [e] + tail == d;
      ParseEntryLine(e);
      var line, rest := Escape(e.ch) + " " + NatToString(e.freq), EntryLines(tail);
      SplitLineOf(line, rest);
      assert EntryLines(d) == line + "\n" + rest;
      ParseEntriesLines(tail);
    }
  }

  /** The frequency file reads back as the dictionary it was written from. */
  lemma ParseSidecarText(d: seq<Entry>)
    ensures ParseSidecar(SidecarText(d)) == Some(d)
  {
    NatToStringNoBreak(|d|);
    SplitLineOf(NatToString(|d|), EntryLines(d));
    ParseNatToString(|d|);
    ParseEntriesLines(d);
  }
}
