/**
 * The JavaScript string built-ins the site relies on, for ASCII text:
 * `toLowerCase`, `toUpperCase`, `trim`, `startsWith`, the regular-expression
 * classes `\s` and `\w`, and `replace(/X+/g, c)` for a one-character class X.
 */
module Strings {

  /** `\s` (and what `trim` removes): tab, line feed, vertical tab, form feed, carriage return, space. */
  predicate IsSpace(c: char) {
    c == ' ' || c == '\t' || c == '\n' || c == '\r' || c == 11 as char || c == 12 as char
  }

  /** The line terminators that the `m` flag puts a `^` after. */
  predicate IsLineTerminator(c: char) {
    c == '\n' || c == '\r'
  }

  predicate IsUpper(c: char) { 'A' <= c <= 'Z' }

  predicate IsLowerLetter(c: char) { 'a' <= c <= 'z' }

  predicate IsDigit(c: char) { '0' <= c <= '9' }

  /** `\w`: letters, digits and the underscore. */
  predicate IsWordChar(c: char) {
    IsUpper(c) || IsLowerLetter(c) || IsDigit(c) || c == '_'
  }

  /** s holds no line terminator: it lies within one line. */
  predicate OneLine(s: string) {
    s == [] || (!IsLineTerminator(s[0]) && OneLine(s[1..]))
  }

  /** A string none of whose characters is a line terminator lies within one line. */
  lemma {:induction false} OneLineOf(s: string)
    requires forall i :: 0 <= i < |s| ==> !IsLineTerminator(s[i])
    ensures OneLine(s)
    decreases |s|
  {
    if s != [] {
      assert forall i :: 0 <= i < |s[1..]| ==> s[1..][i] == s[i + 1];
      OneLineOf(s[1..]);
    }
  }

  /** r is s with some characters left out, the rest in their order. */
  predicate IsSubsequence(r: string, s: string)
    decreases |s|
  {
    if r == [] then true
    else if s == [] then false
    else if r[0] == s[0] then IsSubsequence(r[1..], s[1..])
    else IsSubsequence(r, s[1..])
  }

  /** A subsequence of s's tail is a subsequence of s. */
  lemma {:induction false} SubsequenceOfTail(r: string, s: string)
    requires s != [] && IsSubsequence(r, s[1..])
    ensures IsSubsequence(r, s)
    decreases |s|, 0
  {
    if r != [] && r[0] == s[0] {
      SubsequenceDropHead(r, s[1..]);
    }
  }

  /** Dropping r's first character keeps it a subsequence of t. */
  lemma {:induction false} SubsequenceDropHead(r: string, t: string)
    requires r != [] && IsSubsequence(r, t)
    ensures IsSubsequence(r[1..], t)
    decreases |t|, 1
  {
    if r[0] != t[0] {
      SubsequenceDropHead(r, t[1..]);
    }
    SubsequenceOfTail(r[1..], t);
  }

  /** Leaving out a prefix of s keeps every subsequence of what is left. */
  lemma {:induction false} SubsequenceOfSuffix(r: string, s: string, k: nat)
    requires k <= |s| && IsSubsequence(r, s[k..])
    ensures IsSubsequence(r, s)
    decreases k
  {
    if k > 0 {
      assert s[1..][k - 1..] == s[k..];
      SubsequenceOfSuffix(r, s[1..], k - 1);
      SubsequenceOfTail(r, s);
    }
  }

  /** Keeping the first character of s in front of a subsequence of its tail. */
  lemma SubsequenceCons(r: string, s: string)
    requires s != [] && IsSubsequence(r, s[1..])
    ensures IsSubsequence([s[0]] + r, s)
  {
    assert ([s[0]] + r)[1..] == r;
  }

  function Lower(c: char): (r: char)
    ensures !IsUpper(r)
    ensures IsLowerLetter(c) || IsDigit(c) || c == '_' || c == '-' || IsSpace(c) ==> r == c
  {
    if IsUpper(c) then (c as int + 32) as char else c
  }

  function Upper(c: char): (r: char)
    ensures !IsLowerLetter(r)
    ensures IsLowerLetter(c) ==> IsUpper(r) && Lower(r) == c
    ensures !IsLowerLetter(c) ==> r == c
  {
    if IsLowerLetter(c) then (c as int - 32) as char else c
  }

  /** `s.toLowerCase()`, character by character. */
  function ToLowerCase(s: string): (r: string)
    ensures |r| == |s|
    ensures forall i :: 0 <= i < |s| ==> r[i] == Lower(s[i])
    ensures forall c :: c in r ==> !IsUpper(c)
  {
    if s == [] then [] else [Lower(s[0])] + ToLowerCase(s[1..])
  }

  lemma {:induction false} ToLowerCaseKeeps(s: string)
    requires forall i :: 0 <= i < |s| ==> !IsUpper(s[i])
    ensures ToLowerCase(s) == s
  {
    assert forall i :: 0 <= i < |s| ==> ToLowerCase(s)[i] == s[i];
  }

  /** t is the lower-case form of s when it is so character by character. */
  lemma LowerCaseOf(s: string, t: string)
    requires |s| == |t| && forall i :: 0 <= i < |s| ==> Lower(s[i]) == t[i]
    ensures ToLowerCase(s) == t
  {
  }

  /** Lower-casing works character by character, so it distributes over concatenation. */
  lemma {:induction false} ToLowerCaseConcat(a: string, b: string)
    ensures ToLowerCase(a + b) == ToLowerCase(a) + ToLowerCase(b)
  {
    if a == [] {
      assert a + b == b;
    } else {
      assert (a + b)[1..] == a[1..] + b;
      ToLowerCaseConcat(a[1..], b);
    }
  }

  /** `s.toLowerCase()` is idempotent. */
  lemma ToLowerCaseTwice(s: string)
    ensures ToLowerCase(ToLowerCase(s)) == ToLowerCase(s)
  {
    var l := ToLowerCase(s);
    assert forall i :: 0 <= i < |l| ==> l[i] in l;
    ToLowerCaseKeeps(l);
  }

  predicate AllSpace(s: string) {
    forall i :: 0 <= i < |s| ==> IsSpace(s[i])
  }

  /** Number of whitespace characters at the end of s. */
  function TrailingSpaces(s: string): (n: nat)
    ensures n <= |s|
    ensures forall i :: |s| - n <= i < |s| ==> IsSpace(s[i])
    ensures n == |s| || !IsSpace(s[|s| - n - 1])
  {
    if s != [] && IsSpace(s[|s| - 1]) then 1 + TrailingSpaces(s[..|s| - 1]) else 0
  }

  /**
   * `s.trim()`: the slice of s left when the whitespace at both ends is
   * dropped; empty when s is all whitespace.
   */
  function Trim(s: string): (r: string)
    ensures |r| <= |s|
    ensures r == [] || (!IsSpace(r[0]) && !IsSpace(r[|r| - 1]))
    ensures r == [] <==> AllSpace(s)
  {
    var i := LeadingRun(s, Whitespace);
    if i == |s| then [] else s[i..|s| - TrailingSpaces(s)]
  }

  /** `trim` cuts s into whitespace, the result, and whitespace. */
  lemma TrimParts(s: string) returns (a: string, b: string)
    ensures s == a + Trim(s) + b
    ensures AllSpace(a) && AllSpace(b)
  {
    var i := LeadingRun(s, Whitespace);
    if i == |s| {
      a, b := s, [];
      assert s == a + Trim(s) + b;
    } else {
      var j := |s| - TrailingSpaces(s);
      a, b := s[..i], s[j..];
      assert s == s[..i] + s[i..j] + s[j..];
    }
  }

  /** Trimming keeps a slice of s: it adds no character. */
  lemma TrimChars(s: string)
    ensures forall c :: c in Trim(s) ==> c in s
  {
    var a, b := TrimParts(s);
  }

  /** A string with no whitespace at either end is its own trim. */
  lemma TrimKeeps(s: string)
    requires s == [] || (!IsSpace(s[0]) && !IsSpace(s[|s| - 1]))
    ensures Trim(s) == s
  {
    if s != [] {
      assert s[0..|s|] == s;
    }
  }

  lemma TrimKeepsSpaceless(s: string)
    requires forall i :: 0 <= i < |s| ==> !IsSpace(s[i])
    ensures Trim(s) == s
  {
    TrimKeeps(s);
  }

  lemma AllSpaceConcat(a: string, b: string)
    requires AllSpace(a) && AllSpace(b)
    ensures AllSpace(a + b)
  {
    forall i | 0 <= i < |a + b| ensures IsSpace((a + b)[i]) {
      if i >= |a| {
        assert (a + b)[i] == b[i - |a|];
      }
    }
  }

  /** The leading run of class k in run + t is run itself when t does not continue it. */
  lemma {:induction false} LeadingRunOf(run: string, t: string, k: CharClass)
    requires forall i :: 0 <= i < |run| ==> InClass(run[i], k)
    requires t == [] || !InClass(t[0], k)
    ensures LeadingRun(run + t, k) == |run|
  {
    if run == [] {
      assert run + t == t;
    } else {
      assert (run + t)[1..] == run[1..] + t;
      LeadingRunOf(run[1..], t, k);
    }
  }

  /** The trailing whitespace of y + q is q itself when y does not end in whitespace. */
  lemma {:induction false} TrailingSpacesOf(y: string, q: string)
    requires AllSpace(q)
    requires y == [] || !IsSpace(y[|y| - 1])
    ensures TrailingSpaces(y + q) == |q|
  {
    if q == [] {
      assert y + q == y;
    } else {
      var n := |y + q|;
      assert (y + q)[n - 1] == q[|q| - 1];
      assert (y + q)[..n - 1] == y + q[..|q| - 1];
      TrailingSpacesOf(y, q[..|q| - 1]);
    }
  }

  /** Trimming whitespace + r + whitespace gives r when r has no whitespace at either end. */
  lemma TrimPadded(p: string, r: string, q: string)
    requires AllSpace(p) && AllSpace(q)
    requires r == [] || (!IsSpace(r[0]) && !IsSpace(r[|r| - 1]))
    ensures Trim(p + r + q) == r
  {
    if r == [] {
      assert p + r + q == p + q;
      AllSpaceConcat(p, q);
    } else {
      var s := p + r + q;
      assert s == p + (r + q);
      LeadingRunOf(p, r + q, Whitespace);
      TrailingSpacesOf(p + r, q);
      assert s[|p|..|s| - |q|] == r;
    }
  }

  /** Whitespace on both sides of the middle part, with that part's own ends kept, trims to the middle. */
  lemma PadAround(p: string, a: string, r: string, b: string, q: string)
    requires AllSpace(p) && AllSpace(a) && AllSpace(b) && AllSpace(q)
    requires r == [] || (!IsSpace(r[0]) && !IsSpace(r[|r| - 1]))
    ensures Trim(p + (a + r + b) + q) == r
  {
    assert p + (a + r + b) + q == (p + a) + r + (b + q);
    AllSpaceConcat(p, a);
    AllSpaceConcat(b, q);
    TrimPadded(p + a, r, b + q);
  }

  /** Extra whitespace around s does not change `s.trim()`. */
  lemma TrimIgnoresPadding(p: string, s: string, q: string)
    requires AllSpace(p) && AllSpace(q)
    ensures Trim(p + s + q) == Trim(s)
  {
    var a, b := TrimParts(s);
    PadAround(p, a, Trim(s), b, q);
  }

  /** `s.startsWith(prefix)`. */
  predicate StartsWith(s: string, prefix: string) {
    |prefix| <= |s| && s[..|prefix|] == prefix
  }

  /** The one-character regular-expression classes the site replaces runs of. */
  datatype CharClass = Whitespace | Newline | Hyphen | Hash

  predicate InClass(c: char, k: CharClass) {
    match k
    case Whitespace => IsSpace(c)
    case Newline => c == '\n'
    case Hyphen => c == '-'
    case Hash => c == '#'
  }

  /**
   * `s.replace(/X+/g, rep)` for the class X = k, where inRun says that the
   * character just before s was in k (so its run has been replaced already).
   */
  function ReplaceRunsFrom(s: string, k: CharClass, rep: char, inRun: bool): (r: string)
    ensures |r| <= |s|
  {
    if s == [] then []
    else if InClass(s[0], k) then
      if inRun then ReplaceRunsFrom(s[1..], k, rep, true)
      else [rep] + ReplaceRunsFrom(s[1..], k, rep, true)
    else [s[0]] + ReplaceRunsFrom(s[1..], k, rep, false)
  }

  /** Each character of the result is rep or a character of s outside class k. */
  lemma {:induction false} ReplaceRunsChars(s: string, k: CharClass, rep: char, inRun: bool)
    ensures forall c :: c in ReplaceRunsFrom(s, k, rep, inRun) ==> c == rep || (c in s && !InClass(c, k))
  {
    if s != [] {
      ReplaceRunsChars(s[1..], k, rep, InClass(s[0], k));
      assert forall c :: c in s[1..] ==> c in s;
    }
  }

  /** `s.replace(/X+/g, rep)`: every maximal run of characters in class k becomes one rep. */
  function ReplaceRuns(s: string, k: CharClass, rep: char): (r: string)
    ensures |r| <= |s|
  {
    ReplaceRunsFrom(s, k, rep, false)
  }

  /** A string with no character of class k is left as it is. */
  lemma {:induction false} ReplaceRunsNone(s: string, k: CharClass, rep: char, inRun: bool)
    requires forall i :: 0 <= i < |s| ==> !InClass(s[i], k)
    ensures ReplaceRunsFrom(s, k, rep, inRun) == s
  {
    if s != [] {
      ReplaceRunsNone(s[1..], k, rep, false);
    }
  }

  /** A prefix with no character of class k is copied, and the scan after it starts outside a run. */
  lemma {:induction false} ReplaceRunsPrefix(x: string, rest: string, k: CharClass, rep: char)
    requires forall i :: 0 <= i < |x| ==> !InClass(x[i], k)
    ensures ReplaceRunsFrom(x + rest, k, rep, false) == x + ReplaceRunsFrom(rest, k, rep, false)
    decreases |x|
  {
    if x == [] {
      assert x + rest == rest;
    } else {
      assert (x + rest)[0] == x[0];
      assert (x + rest)[1..] == x[1..] + rest;
      ReplaceRunsPrefix(x[1..], rest, k, rep);
      assert [x[0]] + (x[1..] + ReplaceRunsFrom(rest, k, rep, false)) == x + ReplaceRunsFrom(rest, k, rep, false);
    }
  }

  /** One run between two parts free of class k becomes one rep. */
  lemma ReplaceRunsSingle(x: string, run: string, y: string, k: CharClass, rep: char)
    requires forall i :: 0 <= i < |x| ==> !InClass(x[i], k)
    requires run != [] && forall i :: 0 <= i < |run| ==> InClass(run[i], k)
    requires forall i :: 0 <= i < |y| ==> !InClass(y[i], k)
    ensures ReplaceRuns(x + run + y, k, rep) == x + [rep] + y
  {
    assert x + run + y == x + (run + y);
    ReplaceRunsPrefix(x, run + y, k, rep);
    ReplaceRunsRun(run, y, k, rep);
    ReplaceRunsNone(y, k, rep, true);
  }

  /** Inside a run every character of class k is swallowed. */
  lemma {:induction false} ReplaceRunsRun(run: string, y: string, k: CharClass, rep: char)
    requires run != [] && forall i :: 0 <= i < |run| ==> InClass(run[i], k)
    ensures ReplaceRunsFrom(run + y, k, rep, false) == [rep] + ReplaceRunsFrom(y, k, rep, true)
  {
    assert (run + y)[0] == run[0];
    assert (run + y)[1..] == run[1..] + y;
    ReplaceRunsInRun(run[1..], y, k, rep);
  }

  lemma {:induction false} ReplaceRunsInRun(run: string, y: string, k: CharClass, rep: char)
    requires forall i :: 0 <= i < |run| ==> InClass(run[i], k)
    ensures ReplaceRunsFrom(run + y, k, rep, true) == ReplaceRunsFrom(y, k, rep, true)
    decreases |run|
  {
    if run == [] {
      assert run + y == y;
    } else {
      assert (run + y)[0] == run[0];
      assert (run + y)[1..] == run[1..] + y;
      ReplaceRunsInRun(run[1..], y, k, rep);
    }
  }

  /** No two neighbouring characters of s are in class k. */
  predicate NoAdjacent(s: string, k: CharClass) {
    forall i :: 0 <= i < |s| - 1 ==> !(InClass(s[i], k) && InClass(s[i + 1], k))
  }

  /** Replacing runs by a character of the class itself leaves no two such characters side by side. */
  lemma {:induction false} ReplaceRunsSeparates(s: string, k: CharClass, rep: char, inRun: bool)
    requires InClass(rep, k)
    ensures inRun ==> ReplaceRunsFrom(s, k, rep, inRun) == [] || !InClass(ReplaceRunsFrom(s, k, rep, inRun)[0], k)
    ensures NoAdjacent(ReplaceRunsFrom(s, k, rep, inRun), k)
  {
    if s != [] {
      if InClass(s[0], k) {
        ReplaceRunsSeparates(s[1..], k, rep, true);
      } else {
        ReplaceRunsSeparates(s[1..], k, rep, false);
        var t := ReplaceRunsFrom(s[1..], k, rep, false);
        var r := ReplaceRunsFrom(s, k, rep, inRun);
        assert r == [s[0]] + t;
        forall i | 0 <= i < |r| - 1
          ensures !(InClass(r[i], k) && InClass(r[i + 1], k)) {
          if i > 0 {
            assert r[i] == t[i - 1] && r[i + 1] == t[i];
          } else {
            assert r[0] == s[0];
          }
        }
      }
    }
  }

  /** Number of characters of class k at the front of s. */
  function LeadingRun(s: string, k: CharClass): (n: nat)
    ensures n <= |s|
    ensures forall i :: 0 <= i < n ==> InClass(s[i], k)
    ensures n == |s| || !InClass(s[n], k)
  {
    if s != [] && InClass(s[0], k) then 1 + LeadingRun(s[1..], k) else 0
  }
}
