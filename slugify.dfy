/** URL slugs made from titles, and titles made back from slugs (src/utils/slugify.ts). */
module Slug {
  import opened Strings

  /** `[\w\s-]`: what the first replace of `slugify` keeps. */
  predicate IsKept(c: char) {
    IsWordChar(c) || IsSpace(c) || c == '-'
  }

  /** `.replace(/[^\w\s-]/g, '')`: drops every other character, keeping the order of the rest. */
  function RemoveSpecial(s: string): (r: string)
    ensures |r| <= |s|
  {
    if s == [] then []
    else if IsKept(s[0]) then [s[0]] + RemoveSpecial(s[1..])
    else RemoveSpecial(s[1..])
  }

  /** One character is kept exactly when it is a word, whitespace or '-' character. */
  lemma RemoveSpecialSingle(c: char)
    ensures RemoveSpecial([c]) == if IsKept(c) then [c] else []
  {
    assert [c][1..] == [];
  }

  /** The replace works character by character: kept characters stay in order, repeats included. */
  lemma {:induction false} RemoveSpecialAppend(a: string, b: string)
    ensures RemoveSpecial(a + b) == RemoveSpecial(a) + RemoveSpecial(b)
    decreases |a|
  {
    if a == [] {
      assert a + b == b;
    } else {
      assert (a + b)[0] == a[0];
      assert (a + b)[1..] == a[1..] + b;
      RemoveSpecialAppend(a[1..], b);
    }
  }

  /** The characters that survive are exactly the kept characters of s. */
  lemma {:induction false} RemoveSpecialChars(s: string)
    ensures forall c :: c in RemoveSpecial(s) <==> c in s && IsKept(c)
  {
    if s != [] {
      RemoveSpecialChars(s[1..]);
      assert s == [s[0]] + s[1..];
    }
  }

  /**
   * `slugify(text)`: lower-case, drop special characters, turn each whitespace
   * run into '-', squeeze each run of '-' into one, then trim whitespace.
   */
  function Slugify(text: string): (slug: string)
    ensures IsSlugShape(slug)
  {
    SqueezedShape(text);
    TrimKeepsSpaceless(Squeezed(text));
    Trim(Squeezed(text))
  }

  /** The characters of a slug: a-z, 0-9, '_' and '-'. */
  predicate IsSlugChar(c: char) {
    IsLowerLetter(c) || IsDigit(c) || c == '_' || c == '-'
  }

  /** What `slugify` produces: slug characters only, never two hyphens in a row. */
  predicate IsSlugShape(s: string) {
    (forall i :: 0 <= i < |s| ==> IsSlugChar(s[i])) && NoAdjacent(s, Hyphen)
  }

  /** The string `slugify` trims at its last step. */
  function Squeezed(text: string): string {
    ReplaceRuns(ReplaceRuns(RemoveSpecial(ToLowerCase(text)), Whitespace, '-'), Hyphen, '-')
  }

  lemma SqueezedChars(text: string)
    ensures forall x :: x in Squeezed(text) ==> IsSlugChar(x)
  {
    var b := RemoveSpecial(ToLowerCase(text));
    RemoveSpecialChars(ToLowerCase(text));
    assert forall x :: x in b ==> IsKept(x) && !IsUpper(x);
    var c := ReplaceRuns(b, Whitespace, '-');
    ReplaceRunsChars(b, Whitespace, '-', false);
    assert forall x :: x in c ==> IsSlugChar(x);
    ReplaceRunsChars(c, Hyphen, '-', false);
  }

  /** What is left before the final trim is slug-shaped and has no whitespace. */
  lemma SqueezedShape(text: string)
    ensures IsSlugShape(Squeezed(text))
    ensures forall i :: 0 <= i < |Squeezed(text)| ==> !IsSpace(Squeezed(text)[i])
  {
    var d := Squeezed(text);
    SqueezedChars(text);
    forall i | 0 <= i < |d| ensures IsSlugChar(d[i]) {
      assert d[i] in d;
    }
    ReplaceRunsSeparates(ReplaceRuns(RemoveSpecial(ToLowerCase(text)), Whitespace, '-'), Hyphen, '-', false);
  }

  /** The final `trim` of `slugify` never removes anything, so a leading or trailing '-' survives. */
  lemma SlugifyTrimIsNoOp(text: string)
    ensures Slugify(text) == Squeezed(text)
  {
    SqueezedShape(text);
    TrimKeepsSpaceless(Squeezed(text));
  }

  /** A corollary of Slugify's contract that adds one fact: no whitespace is left in a slug. */
  lemma SlugifyShape(text: string)
    ensures IsSlugShape(Slugify(text))
    ensures forall i :: 0 <= i < |Slugify(text)| ==> !IsSpace(Slugify(text)[i])
  {
    SqueezedShape(text);
    SlugifyTrimIsNoOp(text);
  }

  lemma {:induction false} RemoveSpecialKeeps(s: string)
    requires forall i :: 0 <= i < |s| ==> IsKept(s[i])
    ensures RemoveSpecial(s) == s
  {
    if s != [] {
      RemoveSpecialKeeps(s[1..]);
    }
  }

  /** Squeezing hyphens leaves a string without "--" as it is. */
  lemma {:induction false} SqueezeKeeps(s: string, inRun: bool)
    requires NoAdjacent(s, Hyphen)
    requires inRun ==> s == [] || s[0] != '-'
    ensures ReplaceRunsFrom(s, Hyphen, '-', inRun) == s
  {
    if s != [] {
      assert NoAdjacent(s[1..], Hyphen) by {
        forall i | 0 <= i < |s[1..]| - 1
          ensures !(InClass(s[1..][i], Hyphen) && InClass(s[1..][i + 1], Hyphen))
        {
          assert s[1..][i] == s[i + 1] && s[1..][i + 1] == s[i + 2];
        }
      }
      SqueezeKeeps(s[1..], s[0] == '-');
    }
  }

  /** The last two steps of `slugify` change nothing on a slug-shaped string. */
  lemma FinishKeeps(s: string)
    requires IsSlugShape(s)
    ensures Trim(ReplaceRuns(s, Hyphen, '-')) == s
  {
    SqueezeKeeps(s, false);
    TrimKeepsSpaceless(s);
  }

  /** `slugify` leaves its own output unchanged. */
  lemma SlugifyKeepsSlugs(s: string)
    requires IsSlugShape(s)
    ensures Slugify(s) == s
  {
    ToLowerCaseKeeps(s);
    RemoveSpecialKeeps(s);
    ReplaceRunsNone(s, Whitespace, '-', false);
    FinishKeeps(s);
  }

  lemma {:induction false} RemoveSpecialDrops(s: string)
    requires forall i :: 0 <= i < |s| ==> !IsKept(s[i])
    ensures RemoveSpecial(s) == []
  {
    if s != [] {
      RemoveSpecialDrops(s[1..]);
    }
  }

  /** A title with no letter, digit, '_', whitespace or '-' has the empty slug. */
  lemma SlugifyEmpty(text: string)
    requires forall i :: 0 <= i < |text| ==> !IsKept(text[i])
    ensures Slugify(text) == []
  {
    var l := ToLowerCase(text);
    forall i | 0 <= i < |l| ensures !IsKept(l[i]) {
      assert l[i] == Lower(text[i]);
    }
    RemoveSpecialDrops(l);
  }

  /** "!!!" has the empty slug. */
  lemma SlugifyBangs()
    ensures Slugify("!!!") == ""
  {
    SlugifyEmpty("!!!");
  }

  /** A title of two words: "Launch Day" becomes "launch-day". */
  lemma SlugifyLaunchDay()
    ensures Slugify("Launch Day") == "launch-day"
  {
    var lower := LaunchDayLower();
    var spaced := LaunchDaySpaced(lower);
    LaunchDayShape(spaced);
    FinishKeeps(spaced);
  }

  lemma LaunchDayLower() returns (lower: string)
    ensures lower == "launch day"
    ensures RemoveSpecial(ToLowerCase("Launch Day")) == lower
  {
    lower := LaunchDayLowerCase("Launch Day");
    LaunchDayKept(lower);
  }

  lemma LaunchDayLowerCase(text: string) returns (lower: string)
    requires text == "Launch Day"
    ensures lower == "launch day"
    ensures ToLowerCase(text) == lower
  {
    lower := "launch day";
    LowerCaseOf(text, lower);
  }

  lemma LaunchDayKept(lower: string)
    requires lower == "launch day"
    ensures RemoveSpecial(lower) == lower
  {
    RemoveSpecialKeeps(lower);
  }

  lemma LaunchDaySpaced(lower: string) returns (spaced: string)
    requires lower == "launch day"
    ensures spaced == "launch-day"
    ensures ReplaceRuns(lower, Whitespace, '-') == spaced
  {
    spaced := "launch-day";
    assert lower == "launch" + " " + "day";
    ReplaceRunsSingle("launch", " ", "day", Whitespace, '-');
    assert "launch" + ['-'] + "day" == spaced;
  }

  lemma LaunchDayShape(spaced: string)
    requires spaced == "launch-day"
    ensures IsSlugShape(spaced)
  {
  }

  /** "Hello, World!" becomes "hello-world": the comma and the '!' are dropped. */
  lemma SlugifyHelloWorld()
    ensures Slugify("Hello, World!") == "hello-world"
  {
    var lower := HelloWorldLower();
    var kept := HelloWorldKept(lower);
    HelloWorldFinish(kept);
  }

  lemma HelloWorldLower() returns (lower: string)
    ensures lower == "hello, world!"
    ensures ToLowerCase("Hello, World!") == lower
  {
    lower := "hello, world!";
    LowerCaseOf("Hello, World!", lower);
  }

  lemma HelloWorldKept(lower: string) returns (kept: string)
    requires lower == "hello, world!"
    ensures kept == "hello world"
    ensures RemoveSpecial(lower) == kept
  {
    kept := "hello world";
    var a, b := "hello", " world";
    assert lower == a + [','] + b + ['!'];
    RemoveSpecialBetween(a, ',', b, '!');
    assert a + b == kept;
  }

  /** Kept text with one dropped character after each of its two parts. */
  lemma RemoveSpecialBetween(a: string, c: char, b: string, d: char)
    requires forall i :: 0 <= i < |a| ==> IsKept(a[i])
    requires forall i :: 0 <= i < |b| ==> IsKept(b[i])
    requires !IsKept(c) && !IsKept(d)
    ensures RemoveSpecial(a + [c] + b + [d]) == a + b
  {
    var ac := a + [c];
    RemoveSpecialAppend(a, [c]);
    RemoveSpecialSingle(c);
    RemoveSpecialKeeps(a);
    assert RemoveSpecial(ac) == a;
    RemoveSpecialAppend(ac, b);
    RemoveSpecialKeeps(b);
    assert RemoveSpecial(ac + b) == a + b;
    RemoveSpecialAppend(ac + b, [d]);
    RemoveSpecialSingle(d);
    assert (a + b) + [] == a + b;
  }

  /** The rest of the chain on "hello world": the space becomes '-', and the hyphen pass and trim change nothing. */
  lemma HelloWorldFinish(kept: string)
    requires kept == "hello world"
    ensures Trim(ReplaceRuns(ReplaceRuns(kept, Whitespace, '-'), Hyphen, '-')) == "hello-world"
  {
    var spaced := "hello-world";
    assert kept == "hello" + " " + "world";
    ReplaceRunsSingle("hello", " ", "world", Whitespace, '-');
    assert "hello" + ['-'] + "world" == spaced;
    assert IsSlugShape(spaced);
    FinishKeeps(spaced);
  }

  /** `slugify(slugify(t)) == slugify(t)`. */
  lemma SlugifyIdempotent(text: string)
    ensures Slugify(Slugify(text)) == Slugify(text)
  {
    SlugifyShape(text);
    SlugifyKeepsSlugs(Slugify(text));
  }

  /** `s.split(sep)`: the pieces between the separators, in order; there is always one more piece than separators. */
  function Split(s: string, sep: char): (pieces: seq<string>)
    ensures |pieces| >= 1
    ensures forall p :: p in pieces ==> sep !in p
  {
    if s == [] then [[]]
    else
      var rest := Split(s[1..], sep);
      if s[0] == sep then [[]] + rest
      else [[s[0]] + rest[0]] + rest[1..]
  }

  /** `pieces.join(sep)`. */
  function Join(pieces: seq<string>, sep: string): string {
    if |pieces| == 0 then []
    else if |pieces| == 1 then pieces[0]
    else pieces[0] + sep + Join(pieces[1..], sep)
  }

  /** Joining the pieces of a split with its separator gives the string back. */
  lemma {:induction false} JoinSplit(s: string, sep: char)
    ensures Join(Split(s, sep), [sep]) == s
  {
    if s != [] {
      var rest := Split(s[1..], sep);
      JoinSplit(s[1..], sep);
      if s[0] == sep {
        assert Split(s, sep) == [[]] + rest;
        assert ([[]] + rest)[1..] == rest;
      } else {
        JoinConsChar(s[0], rest[0], rest[1..], [sep]);
        assert [rest[0]] + rest[1..] == rest;
      }
    }
  }

  lemma JoinConsChar(c: char, first: string, more: seq<string>, sep: string)
    ensures Join([[c] + first] + more, sep) == [c] + Join([first] + more, sep)
  {
    if more != [] {
      assert ([[c] + first] + more)[1..] == more;
      assert ([first] + more)[1..] == more;
    }
  }

  /** `word.charAt(0).toUpperCase() + word.slice(1)`. */
  function Capitalize(word: string): (r: string)
    ensures |r| == |word|
    ensures word != [] ==> r[0] == Upper(word[0]) && r[1..] == word[1..]
  {
    if word == [] then [] else [Upper(word[0])] + word[1..]
  }

  /** `words.map(word => capitalize(word))`. */
  function CapitalizeAll(words: seq<string>): (r: seq<string>)
    ensures |r| == |words|
    ensures forall i :: 0 <= i < |words| ==> r[i] == Capitalize(words[i])
  {
    if words == [] then [] else [Capitalize(words[0])] + CapitalizeAll(words[1..])
  }

  /** `deslugify(slug)`: split at '-', capitalize each piece, join with ' '. */
  function Deslugify(slug: string): (title: string)
    ensures |title| == |slug|
    ensures forall i :: 0 <= i < |slug| ==> title[i] == DeslugifiedAt(slug, i, true)
    ensures '-' !in title
  {
    var pieces := Split(slug, '-');
    assert CapitalizeAll(pieces) == [Capitalize(pieces[0])] + CapitalizeAll(pieces[1..]);
    DeslugifyByCharacter(slug, true);
    Join(CapitalizeAll(pieces), " ")
  }

  /**
   * Character i of `deslugify(slug)`: a '-' becomes a space, a character that
   * opens a piece (at the start when atStart, or after a '-') is upper-cased,
   * and every other character is kept.
   */
  function DeslugifiedAt(slug: string, i: nat, atStart: bool): (c: char)
    requires i < |slug|
    ensures c != '-'
  {
    if slug[i] == '-' then ' '
    else if (if i == 0 then atStart else slug[i - 1] == '-') then Upper(slug[i])
    else slug[i]
  }

  /** The pieces of a split, the first capitalized only when capFirst, the others always. */
  function CapitalizeRest(pieces: seq<string>, capFirst: bool): seq<string>
    requires |pieces| >= 1
  {
    [if capFirst then Capitalize(pieces[0]) else pieces[0]] + CapitalizeAll(pieces[1..])
  }

  /** Split, capitalize and join give, character by character, what DeslugifiedAt says. */
  predicate JoinsByCharacter(s: string, atStart: bool) {
    var r := Join(CapitalizeRest(Split(s, '-'), atStart), " ");
    |r| == |s| && forall i :: 0 <= i < |s| ==> r[i] == DeslugifiedAt(s, i, atStart)
  }

  lemma {:induction false} DeslugifyByCharacter(s: string, atStart: bool)
    ensures |Join(CapitalizeRest(Split(s, '-'), atStart), " ")| == |s|
    ensures forall i :: 0 <= i < |s| ==>
      Join(CapitalizeRest(Split(s, '-'), atStart), " ")[i] == DeslugifiedAt(s, i, atStart)
  {
    if s != [] {
      if s[0] == '-' {
        DeslugifyByCharacter(s[1..], true);
        DeslugifyHyphenStep(s, atStart);
      } else {
        DeslugifyByCharacter(s[1..], false);
        DeslugifyPlainStep(s, atStart);
      }
    }
  }

  /** A leading '-' becomes a space and the rest is deslugified from a piece start. */
  lemma DeslugifyHyphenStep(s: string, atStart: bool)
    requires s != [] && s[0] == '-'
    requires JoinsByCharacter(s[1..], true)
    ensures JoinsByCharacter(s, atStart)
  {
    var rest := Split(s[1..], '-');
    var r := Join(CapitalizeRest(Split(s, '-'), atStart), " ");
    var r' := Join(CapitalizeRest(rest, true), " ");
    assert CapitalizeRest(rest, true) == CapitalizeAll(rest);
    assert CapitalizeRest(Split(s, '-'), atStart) == [[]] + CapitalizeAll(rest);
    assert ([[]] + CapitalizeAll(rest))[1..] == CapitalizeAll(rest);
    assert r == " " + r';
    forall i | 0 <= i < |s| ensures r[i] == DeslugifiedAt(s, i, atStart) {
      if i > 0 {
        assert r[i] == r'[i - 1];
        assert DeslugifiedAt(s[1..], i - 1, true) == DeslugifiedAt(s, i, atStart);
      }
    }
  }

  /** A leading character other than '-' is kept (upper-cased at a piece start) and joins the first piece. */
  lemma DeslugifyPlainStep(s: string, atStart: bool)
    requires s != [] && s[0] != '-'
    requires JoinsByCharacter(s[1..], false)
    ensures JoinsByCharacter(s, atStart)
  {
    var rest := Split(s[1..], '-');
    var r := Join(CapitalizeRest(Split(s, '-'), atStart), " ");
    var r' := Join(CapitalizeRest(rest, false), " ");
    var x := if atStart then Upper(s[0]) else s[0];
    assert CapitalizeRest(Split(s, '-'), atStart) == [[x] + rest[0]] + CapitalizeAll(rest[1..]);
    JoinConsChar(x, rest[0], CapitalizeAll(rest[1..]), " ");
    assert r == [x] + r';
    forall i | 0 <= i < |s| ensures r[i] == DeslugifiedAt(s, i, atStart) {
      if i > 0 {
        assert r[i] == r'[i - 1];
        assert DeslugifiedAt(s[1..], i - 1, false) == DeslugifiedAt(s, i, atStart);
      }
    }
  }

  /** `slugify(deslugify(s)) == s` for every slug-shaped s. */
  lemma SlugifyDeslugify(s: string)
    requires IsSlugShape(s)
    ensures Slugify(Deslugify(s)) == s
  {
    var d := Deslugify(s);
    var h := ToLowerCase(d);
    forall i | 0 <= i < |s| ensures h[i] == (if s[i] == '-' then ' ' else s[i]) {
      assert IsSlugChar(s[i]);
    }
    RemoveSpecialKeeps(h);
    SpacesBecomeHyphens(s, h, false);
    FinishKeeps(s);
  }

  lemma {:induction false} SpacesBecomeHyphens(s: string, h: string, inRun: bool)
    requires IsSlugShape(s)
    requires |h| == |s| && forall i :: 0 <= i < |s| ==> h[i] == (if s[i] == '-' then ' ' else s[i])
    requires inRun ==> s == [] || s[0] != '-'
    ensures ReplaceRunsFrom(h, Whitespace, '-', inRun) == s
  {
    if s != [] {
      assert IsSlugShape(s[1..]) by {
        forall i | 0 <= i < |s[1..]| - 1
          ensures !(InClass(s[1..][i], Hyphen) && InClass(s[1..][i + 1], Hyphen))
        {
          assert s[1..][i] == s[i + 1] && s[1..][i + 1] == s[i + 2];
        }
      }
      assert IsSlugChar(s[0]);
      SpacesBecomeHyphens(s[1..], h[1..], s[0] == '-');
    }
  }

  /** Every slug turned into a title and back is the same slug. */
  lemma SlugRoundTrip(text: string)
    ensures Slugify(Deslugify(Slugify(text))) == Slugify(text)
  {
    SlugifyShape(text);
    SlugifyDeslugify(Slugify(text));
  }
}
