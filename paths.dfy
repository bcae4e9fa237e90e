/** `__get_output_path`: the names of the compressed file and of the
    frequency file, derived from the name of the input file. */
module Paths {

  /** `pat in s` for strings: `pat` occurs somewhere in `s`. */
  predicate Contains(s: string, pat: string)
    requires pat != []
  {
    |s| >= |pat| && (s[..|pat|] == pat || Contains(s[1..], pat))
  }

  /** `s.replace(pat, rep)`: every occurrence of `pat`, scanning from the
      left and never overlapping, is replaced by `rep`. */
  function Replace(s: string, pat: string, rep: string): (r: string)
    requires pat != []
    ensures |rep| >= |pat| ==> |r| >= |s|
    decreases |s|
  {
    if |s| < |pat| then s
    else if s[..|pat|] == pat then rep + Replace(s[|pat|..], pat, rep)
    else [s[0]] + Replace(s[1..], pat, rep)
  }

  /** Without an occurrence there is nothing to replace. */
  lemma {:induction false} ReplaceAbsent(s: string, pat: string, rep: string)
    requires pat != [] && !Contains(s, pat)
    ensures Replace(s, pat, rep) == s
  {
    if |s| >= |pat| {
      ReplaceAbsent(s[1..], pat, rep);
      assert s == [s[0]] + s[1..];
    }
  }

  /** A longer replacement makes a string with an occurrence longer. */
  lemma {:induction false} ReplaceLonger(s: string, pat: string, rep: string)
    requires pat != [] && Contains(s, pat) && |rep| > |pat|
    ensures |Replace(s, pat, rep)| > |s|
  {
    if s[..|pat|] != pat {
      ReplaceLonger(s[1..], pat, rep);
    }
  }

  /** Two replacements of equal length that differ give different strings
      wherever `pat` occurs. */
  lemma {:induction false} ReplaceDistinct(s: string, pat: string, a: string, b: string)
    requires pat != [] && Contains(s, pat) && |a| == |b| && a != b
    ensures Replace(s, pat, a) != Replace(s, pat, b)
  {
    var x, y := Replace(s, pat, a), Replace(s, pat, b);
    if s[..|pat|] == pat {
      assert x[..|a|] == a && y[..|b|] == b;
    } else {
      ReplaceDistinct(s[1..], pat, a, b);
      assert x[1..] == Replace(s[1..], pat, a) && y[1..] == Replace(s[1..], pat, b);
    }
  }

  /** The pair `(bin_path, freq_path)` as `__get_output_path` computes it. */
  function OutputPaths(path: string): (r: (string, string))
    ensures |r.0| >= |path| && |r.1| >= |path|
  {
    (Replace(path, ".txt", "_comp.bin"), Replace(path, ".txt", "_freq.txt"))
  }

  /** A name without ".txt" is returned unchanged for both outputs: the
      frequency file is written over the input, and the compressed file
      over the frequency file. */
  lemma OutputPathsOverwriteInput(path: string)
    requires !Contains(path, ".txt")
    ensures OutputPaths(path) == (path, path)
  {
    ReplaceAbsent(path, ".txt", "_comp.bin");
    ReplaceAbsent(path, ".txt", "_freq.txt");
  }

  /** The input "notes" is its own frequency file and compressed file. */
  lemma OutputPathsNotes()
    ensures OutputPaths("notes") == ("notes", "notes")
  {
    var s := "notes";
    assert s[1..] == "otes" && s[1..][1..] == "tes";
    assert s[..4][0] != '.' && s[1..][..4][0] != '.';
    assert !Contains(s[1..][1..], ".txt");
    assert !Contains(s, ".txt");
    OutputPathsOverwriteInput(s);
  }

  /** The output names as intended: the suffixes replace ".txt" where it
      occurs and are appended otherwise. */
  function FixedOutputPaths(path: string): (r: (string, string))
    ensures r.0 != path && r.1 != path && r.0 != r.1
  {
    if Contains(path, ".txt") then
      ReplaceLonger(path, ".txt", "_comp.bin");
      ReplaceLonger(path, ".txt", "_freq.txt");
      ReplaceDistinct(path, ".txt", "_comp.bin", "_freq.txt");
      OutputPaths(path)
    else
      var bin, freq := path + "_comp.bin", path + "_freq.txt";
      assert bin[|path| + 1] == 'c' && freq[|path| + 1] == 'f';
      (bin, freq)
  }

  /** Where ".txt" occurs, the intended names are the ones the source
      computes. */
  lemma FixedOutputPathsAgree(path: string)
    requires Contains(path, ".txt")
    ensures FixedOutputPaths(path) == OutputPaths(path)
  {
  }
}
