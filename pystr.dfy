/** The few Python `str` operations the scripts rely on, over `seq<char>`. */
module PyStr {

  /** Python's `str.isspace()` for a single character (the characters `strip` removes by default). */
  predicate IsSpace(c: char)
  {
    ('\t' <= c <= '\r') || ('\U{1C}' <= c <= '\U{1F}') || c == ' ' || c == '\U{85}' || c == '\U{A0}'
    || c == '\U{1680}' || ('\U{2000}' <= c <= '\U{200A}') || c == '\U{2028}' || c == '\U{2029}'
    || c == '\U{202F}' || c == '\U{205F}' || c == '\U{3000}'
  }

  /** `s.rstrip()`: the longest prefix of `s` after which only whitespace follows and that does not end in whitespace. */
  function RStrip(s: string): (r: string)
    ensures r <= s
    ensures forall i :: |r| <= i < |s| ==> IsSpace(s[i])
    ensures r != [] ==> !IsSpace(r[|r| - 1])
  {
    if s != [] && IsSpace(s[|s| - 1]) then RStrip(s[..|s| - 1]) else s
  }

  /** `s.lstrip()`: `s` without its leading whitespace. */
  function LStrip(s: string): (r: string)
    ensures |r| <= |s| && r == s[|s| - |r|..]
    ensures forall i :: 0 <= i < |s| - |r| ==> IsSpace(s[i])
    ensures r != [] ==> !IsSpace(r[0])
  {
    if s != [] && IsSpace(s[0]) then LStrip(s[1..]) else s
  }

  /** `s.strip()`: whitespace removed at both ends. */
  function Strip(s: string): (r: string)
    ensures r != [] ==> !IsSpace(r[0]) && !IsSpace(r[|r| - 1])
  {
    LStrip(RStrip(s))
  }

  /**
   * What `strip` removes: the result is a slice of `s`, and everything cut off before and after it
   * is whitespace. With the contract of Strip this determines the result.
   */
  lemma StripSlice(s: string)
    ensures exists i, j ::
              && 0 <= i <= j <= |s| && Strip(s) == s[i..j]
              && (forall k :: 0 <= k < i ==> IsSpace(s[k]))
              && (forall k :: j <= k < |s| ==> IsSpace(s[k]))
  {
    var t := RStrip(s);
    var r := LStrip(t);
    assert t == s[..|t|];
    assert r == s[|t| - |r|..|t|];
    assert forall k :: 0 <= k < |t| - |r| ==> s[k] == t[k];
  }

  /** `s.startswith(">")`. */
  predicate IsHeader(s: string)
  {
    |s| > 0 && s[0] == '>'
  }

  /** Stripping the end of a line never changes whether it starts with `>`. */
  lemma RStripKeepsHeader(s: string)
    ensures IsHeader(RStrip(s)) <==> IsHeader(s)
  {
    if IsHeader(s) {
      assert !IsSpace(s[0]);
      assert |RStrip(s)| > 0;
    }
  }

  /** Length of the first line of `t` as Python's file iteration yields it: up to and including the first `\n`. */
  function LineLength(t: string): (n: nat)
    requires t != []
    ensures 0 < n <= |t|
    ensures forall i :: 0 <= i < n - 1 ==> t[i] != '\n'
    ensures n < |t| ==> t[n - 1] == '\n'
  {
    if t[0] == '\n' || |t| == 1 then 1 else 1 + LineLength(t[1..])
  }

  /** The lines of a text as iterating over a file opened on it delivers them (each keeps its `\n`): they make up the text. */
  function SplitLines(t: string): (r: seq<string>)
    ensures Concat(r) == t
    decreases |t|
  {
    if t == [] then [] else
      var n := LineLength(t);
      assert t == t[..n] + t[n..];
      [t[..n]] + SplitLines(t[n..])
  }

  /** The lines written one after the other. */
  function Concat(ls: seq<string>): string
  {
    if ls == [] then "" else ls[0] + Concat(ls[1..])
  }

  /**
   * Each line is non-empty and holds a `\n` only as its last character, and every line but the last
   * ends with one. With the contract of SplitLines this fixes the lines of a text.
   */
  lemma {:induction false} SplitLinesShape(t: string)
    ensures forall i :: 0 <= i < |SplitLines(t)| ==> SplitLines(t)[i] != ""
    ensures forall i, k :: 0 <= i < |SplitLines(t)| && 0 <= k < |SplitLines(t)[i]| - 1 ==> SplitLines(t)[i][k] != '\n'
    ensures forall i :: 0 <= i < |SplitLines(t)| - 1 ==> SplitLines(t)[i][|SplitLines(t)[i]| - 1] == '\n'
    decreases |t|
  {
    if t != [] {
      var n := LineLength(t);
      SplitLinesShape(t[n..]);
      var r, rest := SplitLines(t), SplitLines(t[n..]);
      assert r == [t[..n]] + rest;
      forall i | 1 <= i < |r| ensures r[i] == rest[i - 1] {
      }
      if |r| > 1 {
        assert t[n..] != [];
        assert r[0][n - 1] == '\n';
      }
    }
  }

  /** A line followed by `\n` and more text splits off as one line. */
  lemma SplitLinesCons(a: string, rest: string)
    requires '\n' !in a
    ensures SplitLines(a + "\n" + rest) == [a + "\n"] + SplitLines(rest)
  {
    var t := a + "\n" + rest;
    LineLengthAt(a, rest);
    assert t[..|a| + 1] == a + "\n";
    assert t[|a| + 1..] == rest;
  }

  lemma {:induction false} LineLengthAt(a: string, rest: string)
    requires '\n' !in a
    ensures LineLength(a + "\n" + rest) == |a| + 1
  {
    var t := a + "\n" + rest;
    if a != [] {
      assert t[0] == a[0];
      assert t[1..] == a[1..] + "\n" + rest;
      LineLengthAt(a[1..], rest);
    }
  }

  /** `s.replace("Z", "\n")`. */
  function ReplaceZ(s: string): (r: string)
    ensures |r| == |s|
    ensures forall i :: 0 <= i < |s| ==> r[i] == if s[i] == 'Z' then '\n' else s[i]
  {
    if s == [] then [] else [if s[0] == 'Z' then '\n' else s[0]] + ReplaceZ(s[1..])
  }

  /** A line as file iteration yields it: a `\n` can only be its last character. */
  predicate FileLine(l: string)
  {
    forall i :: 0 <= i < |l| - 1 ==> l[i] != '\n'
  }

  /** Stripping the end of such a line leaves no `\n` in it. */
  lemma RStripNoNewline(l: string)
    requires FileLine(l)
    ensures '\n' !in RStrip(l)
  {
    var r := RStrip(l);
    forall i | 0 <= i < |r| ensures r[i] != '\n' {
      assert r[i] == l[i];
      if i == |l| - 1 {
        assert !IsSpace(r[|r| - 1]);
      }
    }
  }

  /** A trailing `\n` is stripped with the rest of the whitespace. */
  lemma StripNewline(s: string)
    ensures Strip(s + "\n") == Strip(s)
  {
    assert (s + "\n")[..|s|] == s;
  }

  /** Each `Z` becomes a line break, and line breaks already there stay. */
  lemma {:induction false} ReplaceZNewlines(s: string)
    ensures multiset(ReplaceZ(s))['\n'] == multiset(s)['Z'] + multiset(s)['\n']
  {
    if s != [] {
      ReplaceZNewlines(s[1..]);
      var c := if s[0] == 'Z' then '\n' else s[0];
      assert s == [s[0]] + s[1..];
      assert multiset(s) == multiset([s[0]]) + multiset(s[1..]);
      assert multiset(ReplaceZ(s)) == multiset([c]) + multiset(ReplaceZ(s[1..]));
    }
  }
}
