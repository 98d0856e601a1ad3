/**
 * The post pipeline of src/services/postService.ts: the fetched row of
 * `writing_posts` with its joined categories, and the pure transformation
 * into the flat `Post` record the pages use. The query itself is an input.
 */
module PostService {
  import opened Nullable
  import opened Strings
  import opened Slug
  import opened PostTypes
  import opened Query

  /** A row of `categories` as nested in the join; its name may be missing. */
  datatype CategoryRow = CategoryRow(id: int, name: Option<string>)

  /** A row of `post_categories`; the nested `categories` row may be missing. */
  datatype PostCategoryRow = PostCategoryRow(categories: Option<CategoryRow>)

  /** A fetched row of `writing_posts`, every column possibly null. */
  datatype DbPost = DbPost(
    id: string,
    title: Option<string>,
    slug: Option<string>,
    preview: Option<string>,
    subheader: Option<string>,
    body: Option<string>,
    createdAt: string,
    updatedAt: Option<string>,
    postCategories: Option<seq<PostCategoryRow>>)

  // ---------------------------------------------------------------------
  // Category names

  /** The spellings, after lower-casing and trimming, that name each category. */
  function Synonyms(c: Category): set<string> {
    match c
    case Technology => {"tech", "technology"}
    case Finance => {"finance", "financial"}
    case Personal => {"personal"}
    case Mixed => {"mixed", "general"}
  }

  /** `dbCategoryName.toLowerCase().trim()`. */
  function Normalized(raw: string): string {
    Trim(ToLowerCase(raw))
  }

  /** The `switch` of `mapCategoryName` on the normalised name. */
  function CategoryOf(normalized: string): (c: Category)
    ensures normalized in Synonyms(c) || (c == Mixed && forall d :: normalized !in Synonyms(d))
  {
    match normalized
    case "tech" | "technology" => Technology
    case "finance" | "financial" => Finance
    case "personal" => Personal
    case "mixed" | "general" => Mixed
    case _ => Mixed
  }

  /**
   * `mapCategoryName`: the category a free-text name stands for. A name that
   * is no synonym of any category (the empty name too) falls back to Mixed.
   */
  function MapCategoryName(raw: string): (c: Category)
    ensures Normalized(raw) in Synonyms(c) || (c == Mixed && forall d :: Normalized(raw) !in Synonyms(d))
  {
    CategoryOf(Normalized(raw))
  }

  /** A name already in lower case and without surrounding whitespace is its own normal form. */
  lemma NormalizedKeeps(n: string)
    requires forall i :: 0 <= i < |n| ==> !IsUpper(n[i])
    requires n == [] || (!IsSpace(n[0]) && !IsSpace(n[|n| - 1]))
    ensures Normalized(n) == n
  {
    ToLowerCaseKeeps(n);
    TrimKeeps(n);
  }

  /** Each synonym selects its own category in the switch. */
  lemma CategoryOfSynonym(n: string, c: Category)
    requires n in Synonyms(c)
    ensures CategoryOf(n) == c
  {
    match c
    case Technology =>
      assert n == "tech" || n == "technology";
    case Finance =>
      assert n == "finance" || n == "financial";
    case Personal =>
      assert n == "personal";
    case Mixed =>
      assert n == "mixed" || n == "general";
  }

  /** Every synonym is already in normal form. */
  lemma SynonymNormal(n: string, c: Category)
    requires n in Synonyms(c)
    ensures Normalized(n) == n
  {
    assert n in Synonyms(Technology) + Synonyms(Finance) + Synonyms(Personal) + Synonyms(Mixed);
    if n == "tech" || n == "technology" { TechnologyNormal(n); }
    else if n == "finance" || n == "financial" { FinanceNormal(n); }
    else { OtherNormal(n); }
  }

  lemma TechnologyNormal(n: string)
    requires n == "tech" || n == "technology"
    ensures Normalized(n) == n
  {
    NormalizedKeeps(n);
  }

  lemma FinanceNormal(n: string)
    requires n == "finance" || n == "financial"
    ensures Normalized(n) == n
  {
    NormalizedKeeps(n);
  }

  lemma OtherNormal(n: string)
    requires n == "personal" || n == "mixed" || n == "general"
    ensures Normalized(n) == n
  {
    NormalizedKeeps(n);
  }

  /** Each category's own id maps back to that category. */
  lemma MapCategoryNameCanonical(c: Category)
    ensures MapCategoryName(Name(c)) == c
  {
    var n := Name(c);
    assert n in Synonyms(c);
    SynonymNormal(n, c);
    CategoryOfSynonym(n, c);
  }

  /** Mapping a category's id again gives the same category: the map is idempotent on its results. */
  lemma MapCategoryNameIdempotent(raw: string)
    ensures MapCategoryName(Name(MapCategoryName(raw))) == MapCategoryName(raw)
  {
    MapCategoryNameCanonical(MapCategoryName(raw));
  }

  /** Upper or lower case does not matter to the mapping. */
  lemma MapCategoryNameIgnoresCase(raw: string)
    ensures MapCategoryName(ToLowerCase(raw)) == MapCategoryName(raw)
  {
    ToLowerCaseTwice(raw);
  }

  /** Whitespace around the name does not matter to the mapping. */
  lemma MapCategoryNameIgnoresPadding(p: string, raw: string, q: string)
    requires AllSpace(p) && AllSpace(q)
    ensures MapCategoryName(p + raw + q) == MapCategoryName(raw)
  {
    ToLowerCaseConcat(p + raw, q);
    ToLowerCaseConcat(p, raw);
    ToLowerCaseKeeps(p);
    ToLowerCaseKeeps(q);
    TrimIgnoresPadding(p, ToLowerCase(raw), q);
  }

  /** A synonym in any case, with any whitespace around it, maps to its category. */
  lemma SynonymMaps(p: string, w: string, q: string, c: Category)
    requires AllSpace(p) && AllSpace(q)
    requires ToLowerCase(w) in Synonyms(c)
    ensures MapCategoryName(p + w + q) == c
  {
    MapCategoryNameIgnoresPadding(p, w, q);
    MapCategoryNameIgnoresCase(w);
    SynonymNormal(ToLowerCase(w), c);
    CategoryOfSynonym(ToLowerCase(w), c);
  }

  /** "  Tech  " is read as technology: case and surrounding blanks do not matter. */
  lemma CategoryNameExample(raw: string)
    requires raw == "  Tech  "
    ensures MapCategoryName(raw) == Technology
  {
    assert raw == "  " + "Tech" + "  ";
    LowerCaseOf("Tech", "tech");
    SynonymMaps("  ", "Tech", "  ", Technology);
  }

  /** `pc.categories?.name`. */
  function JoinedName(pc: PostCategoryRow): Option<string> {
    match pc.categories
    case Some(row) => row.name
    case None => None
  }

  /**
   * `categories.map(pc => pc.categories?.name).filter(name => name)`: the
   * non-empty names of the joins, in join order.
   */
  function PresentNames(joins: seq<PostCategoryRow>): (names: seq<string>)
    ensures |names| <= |joins|
    ensures forall i :: 0 <= i < |names| ==> names[i] != ""
  {
    if joins == [] then []
    else
      var name := JoinedName(joins[0]);
      (if Truthy(name) then [name.value] else []) + PresentNames(joins[1..])
  }

  /** `... .map(mapCategoryName)`: the categories of the named joins, in join order. */
  function AllCategoryNames(joins: seq<PostCategoryRow>): (cats: seq<Category>)
    ensures |cats| <= |joins|
  {
    var names := PresentNames(joins);
    seq(|names|, i requires 0 <= i < |names| => MapCategoryName(names[i]))
  }

  /** The names keep the order of the joins: the names of a + b are those of a, then those of b. */
  lemma {:induction false} PresentNamesAppend(a: seq<PostCategoryRow>, b: seq<PostCategoryRow>)
    ensures PresentNames(a + b) == PresentNames(a) + PresentNames(b)
  {
    if a == [] {
      assert a + b == b;
    } else {
      assert (a + b)[1..] == a[1..] + b;
      PresentNamesAppend(a[1..], b);
    }
  }

  /** A join without a (non-empty) category name contributes nothing; a named one contributes its name. */
  lemma PresentNamesSingle(pc: PostCategoryRow)
    ensures !Truthy(JoinedName(pc)) ==> PresentNames([pc]) == []
    ensures Truthy(JoinedName(pc)) ==> PresentNames([pc]) == [JoinedName(pc).value]
  {
  }

  /** When every join carries a name, those names are kept one per join, in the same order. */
  lemma {:induction false} PresentNamesAllNamed(joins: seq<PostCategoryRow>, names: seq<string>)
    requires |names| == |joins|
    requires forall i :: 0 <= i < |joins| ==> JoinedName(joins[i]) == Some(names[i]) && names[i] != ""
    ensures PresentNames(joins) == names
  {
    if joins != [] {
      assert JoinedName(joins[0]) == Some(names[0]);
      PresentNamesAllNamed(joins[1..], names[1..]);
      assert names == [names[0]] + names[1..];
    }
  }

  /** Each category of the post is the mapped name of one named join, in the same position. */
  lemma AllCategoryNamesMapped(joins: seq<PostCategoryRow>)
    ensures |AllCategoryNames(joins)| == |PresentNames(joins)|
    ensures forall i :: 0 <= i < |PresentNames(joins)| ==>
      AllCategoryNames(joins)[i] == MapCategoryName(PresentNames(joins)[i])
  {
  }

  // ---------------------------------------------------------------------
  // Primary category

  /**
   * The primary category: Mixed for no names, the only name for one name,
   * and for several the first one that is not Mixed, else Mixed.
   */
  function PrimaryCategory(names: seq<Category>): (p: Category)
    ensures names != [] ==> p in names
    ensures p == Mixed <==> forall i :: 0 <= i < |names| ==> names[i] == Mixed
  {
    if |names| == 1 then
      names[0]
    else if |names| > 1 then
      var specific := Specific(names);
      if |specific| > 0 then specific[0]
      else
        assert forall i :: 0 <= i < |names| ==> names[i] !in specific;
        Mixed
    else
      Mixed
  }

  /** An independent definition: scan for the first category that is not Mixed. */
  function FirstSpecific(names: seq<Category>): (p: Category)
    ensures p != Mixed ==> p in names
  {
    if names == [] then Mixed
    else if names[0] != Mixed then names[0]
    else FirstSpecific(names[1..])
  }

  /** FirstSpecific picks the entry at the first index holding something other than Mixed. */
  lemma {:induction false} FirstSpecificAt(names: seq<Category>, i: nat)
    requires i < |names| && names[i] != Mixed
    requires forall j :: 0 <= j < i ==> names[j] == Mixed
    ensures FirstSpecific(names) == names[i]
  {
    if i > 0 {
      FirstSpecificAt(names[1..], i - 1);
    }
  }

  lemma {:induction false} SpecificHead(names: seq<Category>)
    requires Specific(names) != []
    ensures Specific(names)[0] == FirstSpecific(names)
  {
    if names[0] == Mixed {
      SpecificHead(names[1..]);
    }
  }

  /** The branchy rule of the service agrees with the plain scan. */
  lemma PrimaryIsFirstSpecific(names: seq<Category>)
    ensures PrimaryCategory(names) == FirstSpecific(names)
  {
    if |names| > 1 && Specific(names) != [] {
      SpecificHead(names);
    } else if |names| > 1 {
      FirstSpecificAllMixed(names);
    }
  }

  /** A mixed name first and a specific one after: the specific one is primary. */
  lemma PrimaryCategoryExample()
    ensures PrimaryCategory([Mixed, Technology]) == Technology
  {
    assert Specific([Mixed, Technology]) == [Technology];
  }

  lemma {:induction false} FirstSpecificAllMixed(names: seq<Category>)
    requires Specific(names) == []
    ensures FirstSpecific(names) == Mixed
  {
    if names != [] {
      FirstSpecificAllMixed(names[1..]);
    }
  }

  // ---------------------------------------------------------------------
  // Description

  /** The cap on a description taken from the body. */
  const PreviewLimit: nat := 200

  /**
   * `s.replace(/^#+\s+/gm, '')` on the rest s of the body, where atLineStart
   * says that `^` holds before s (s starts the body or follows a line
   * terminator). A match is one or more '#' then one or more whitespace
   * characters; the whitespace may run over newlines, and the scan resumes
   * after the match.
   */
  function StripHeadingsFrom(s: string, atLineStart: bool): (r: string)
    ensures |r| <= |s|
    decreases |s|
  {
    if s == [] then []
    else if atLineStart && HeaderLength(s) > 0 then
      var n := HeaderLength(s);
      StripHeadingsFrom(s[n..], IsLineTerminator(s[n - 1]))
    else
      [s[0]] + StripHeadingsFrom(s[1..], IsLineTerminator(s[0]))
  }

  /** The length of a `#+\s+` match at the start of s, or 0 when s does not start with one. */
  function HeaderLength(s: string): (n: nat)
    ensures n <= |s|
    ensures n > 0 <==> LeadingRun(s, Hash) > 0 && LeadingRun(s[LeadingRun(s, Hash)..], Whitespace) > 0
    ensures n > 0 ==> n == LeadingRun(s, Hash) + LeadingRun(s[LeadingRun(s, Hash)..], Whitespace)
  {
    var h := LeadingRun(s, Hash);
    var w := LeadingRun(s[h..], Whitespace);
    if h > 0 && w > 0 then h + w else 0
  }

  /** `body.replace(/^#+\s+/gm, '')`: the scan starts at a line start. */
  function StripHeadings(body: string): (r: string)
    ensures |r| <= |body|
  {
    StripHeadingsFrom(body, true)
  }

  /** Stripping headers only leaves characters out: the rest stay, in order. */
  lemma {:induction false} StripHeadingsSubsequence(s: string, atLineStart: bool)
    ensures IsSubsequence(StripHeadingsFrom(s, atLineStart), s)
    decreases |s|
  {
    if s != [] {
      var n := HeaderLength(s);
      if atLineStart && n > 0 {
        StripHeadingsSubsequence(s[n..], IsLineTerminator(s[n - 1]));
        SubsequenceOfSuffix(StripHeadingsFrom(s, atLineStart), s, n);
      } else {
        StripHeadingsSubsequence(s[1..], IsLineTerminator(s[0]));
        SubsequenceCons(StripHeadingsFrom(s[1..], IsLineTerminator(s[0])), s);
      }
    }
  }

  /** Away from a line start one character is copied and the scan moves on. */
  lemma StripHeadingsCopies(c: char, t: string)
    ensures StripHeadingsFrom([c] + t, false) == [c] + StripHeadingsFrom(t, IsLineTerminator(c))
  {
    var s := [c] + t;
    assert s[0] == c && s[1..] == t;
  }

  /** At a line start where no header begins, one character is copied and the scan moves on. */
  lemma StripHeadingsPlainStart(c: char, t: string)
    requires HeaderLength([c] + t) == 0
    ensures StripHeadingsFrom([c] + t, true) == [c] + StripHeadingsFrom(t, IsLineTerminator(c))
  {
    var s := [c] + t;
    assert s[0] == c && s[1..] == t;
  }

  /** A text that does not open with '#' does not open with a header. */
  lemma NoHashNoHeader(s: string)
    requires s != [] && s[0] != '#'
    ensures HeaderLength(s) == 0
  {
    assert LeadingRun(s, Hash) == 0;
  }

  /** Within a line, past its start, nothing is stripped: '#' there is kept. */
  lemma {:induction false} StripHeadingsMidLine(x: string, rest: string)
    requires OneLine(x)
    ensures StripHeadingsFrom(x + rest, false) == x + StripHeadingsFrom(rest, false)
    decreases |x|
  {
    if x == [] {
      assert x + rest == rest;
    } else {
      var c, y, tail := x[0], x[1..], StripHeadingsFrom(rest, false);
      assert x + rest == [c] + (y + rest);
      StripHeadingsMidLine(y, rest);
      StripHeadingsCopies(c, y + rest);
      assert [c] + (y + tail) == x + tail;
    }
  }

  /**
   * A line that does not open with a header ("#+" then whitespace, which may
   * run on into the next line) is copied whole, every '#' in it included,
   * and the scan stays inside that line up to its end. A line that does not
   * open with '#' is one; so is "#1 pick".
   */
  lemma {:induction false} StripHeadingsKeepsLine(line: string, rest: string)
    requires line != [] && HeaderLength(line + rest) == 0
    requires OneLine(line)
    ensures StripHeadingsFrom(line + rest, true) == line + StripHeadingsFrom(rest, false)
  {
    StripHeadingsLineHead(line, rest);
    StripHeadingsLineTail(line, rest);
    assert [line[0]] + (line[1..] + StripHeadingsFrom(rest, false)) == line + StripHeadingsFrom(rest, false);
  }

  lemma StripHeadingsLineHead(line: string, rest: string)
    requires line != [] && HeaderLength(line + rest) == 0 && !IsLineTerminator(line[0])
    ensures StripHeadingsFrom(line + rest, true) == [line[0]] + StripHeadingsFrom(line[1..] + rest, false)
  {
    var c, y := line[0], line[1..];
    assert line + rest == [c] + (y + rest);
    StripHeadingsPlainStart(c, y + rest);
  }

  lemma StripHeadingsLineTail(line: string, rest: string)
    requires line != []
    requires OneLine(line)
    ensures StripHeadingsFrom(line[1..] + rest, false) == line[1..] + StripHeadingsFrom(rest, false)
  {
    StripHeadingsMidLine(line[1..], rest);
  }

  /** A '#' followed by a character other than whitespace is not a header: "#1 pick" stays. */
  lemma StripHeadingsHashtag(line: string)
    requires line == "#1 pick"
    ensures StripHeadings(line) == line
  {
    OneLineOf(line);
    assert line + [] == line;
    assert LeadingRun(line, Hash) == 1 by {
      assert line[0] == '#' && line[1..] == "1 pick";
    }
    assert LeadingRun(line[1..], Whitespace) == 0;
    StripHeadingsKeepsLine(line, []);
  }

  /** A body without '#' has no header to strip. */
  lemma {:induction false} StripHeadingsNoHash(s: string, atLineStart: bool)
    requires forall i :: 0 <= i < |s| ==> s[i] != '#'
    ensures StripHeadingsFrom(s, atLineStart) == s
    decreases |s|
  {
    if s != [] {
      assert LeadingRun(s, Hash) == 0;
      StripHeadingsNoHash(s[1..], IsLineTerminator(s[0]));
    }
  }

  /** A "#"-run plus whitespace at a line start is dropped, and the scan goes on after it. */
  lemma StripHeadingsDropsHeader(hashes: string, spaces: string, rest: string)
    requires hashes != [] && spaces != []
    requires forall i :: 0 <= i < |hashes| ==> hashes[i] == '#'
    requires AllSpace(spaces)
    requires rest == [] || !IsSpace(rest[0])
    ensures StripHeadingsFrom(hashes + spaces + rest, true)
         == StripHeadingsFrom(rest, IsLineTerminator(spaces[|spaces| - 1]))
  {
    var s := hashes + spaces + rest;
    var n := |hashes| + |spaces|;
    HeaderLengthOf(hashes, spaces, rest);
    StripHeadingsAtHeader(s);
    assert s[n..] == rest;
    assert s[n - 1] == spaces[|spaces| - 1];
  }

  /** At a line start a header match is dropped, and the scan resumes after it. */
  lemma StripHeadingsAtHeader(s: string)
    requires HeaderLength(s) > 0
    ensures StripHeadingsFrom(s, true)
         == StripHeadingsFrom(s[HeaderLength(s)..], IsLineTerminator(s[HeaderLength(s) - 1]))
  {
  }

  /** A "#"-run followed by a whole whitespace run is a header of exactly that length. */
  lemma HeaderLengthOf(hashes: string, spaces: string, rest: string)
    requires hashes != [] && spaces != []
    requires forall i :: 0 <= i < |hashes| ==> hashes[i] == '#'
    requires AllSpace(spaces)
    requires rest == [] || !IsSpace(rest[0])
    ensures HeaderLength(hashes + spaces + rest) == |hashes| + |spaces|
  {
    var t := spaces + rest;
    var s := hashes + t;
    assert s == hashes + spaces + rest;
    var h := |hashes|;
    assert t[0] == spaces[0];
    LeadingRunOf(hashes, t, Hash);
    assert s[h..] == t;
    LeadingRunOf(spaces, rest, Whitespace);
  }

  /** "# Intro\nWe shipped." loses its header mark and keeps both lines. */
  lemma StripHeadingsExample(body: string, rest: string)
    requires body == "# Intro\nWe shipped." && rest == "Intro\nWe shipped."
    ensures StripHeadings(body) == rest
  {
    StripExampleHeader(body, rest);
    StripExampleLines(rest);
  }

  lemma StripExampleHeader(body: string, rest: string)
    requires body == "# Intro\nWe shipped." && rest == "Intro\nWe shipped."
    ensures StripHeadingsFrom(body, true) == StripHeadingsFrom(rest, false)
  {
    assert body == "#" + " " + rest;
    StripHeadingsDropsHeader("#", " ", rest);
  }

  lemma StripExampleLines(rest: string)
    requires rest == "Intro\nWe shipped."
    ensures StripHeadingsFrom(rest, false) == rest
  {
    StripExampleLinesOf(rest, "Intro", "We shipped.");
  }

  lemma StripExampleLinesOf(rest: string, a: string, b: string)
    requires a == "Intro" && b == "We shipped." && rest == a + "\n" + b
    ensures StripHeadingsFrom(rest, false) == rest
  {
    OneLineOf(a);
    OneLineOf(b);
    NoHashNoHeader(b);
    StripHeadingsNextLine(a, b);
  }

  /** Mid-line, a line break followed by a line that does not open with '#' is copied through. */
  lemma {:induction false} StripHeadingsNextLine(a: string, b: string)
    requires OneLine(a)
    requires b != [] && HeaderLength(b) == 0
    requires OneLine(b)
    ensures StripHeadingsFrom(a + "\n" + b, false) == a + "\n" + b
  {
    var next := "\n" + b;
    assert a + "\n" + b == a + next;
    StripHeadingsMidLine(a, next);
    StripHeadingsCopies('\n', b);
    assert b + [] == b;
    StripHeadingsKeepsLine(b, []);
  }

  /** `body.replace(/^#+\s+/gm, '').replace(/\n+/g, ' ').trim()`. */
  function CleanBody(body: string): string {
    Trim(ReplaceRuns(StripHeadings(body), Newline, ' '))
  }

  /** A preview counts when it is present and not blank. */
  predicate HasPreview(preview: Option<string>) {
    Truthy(preview) && Trim(preview.value) != ""
  }

  /**
   * The description: the trimmed preview when there is one, else the cleaned
   * body cut to 200 characters plus "..." when longer, else empty.
   */
  function Description(preview: Option<string>, body: Option<string>): (d: string)
    ensures HasPreview(preview) ==> d == Trim(preview.value)
    ensures !HasPreview(preview) && !Truthy(body) ==> d == ""
    ensures !HasPreview(preview) && Truthy(body) ==> |d| <= PreviewLimit + 3
  {
    if HasPreview(preview) then
      Trim(preview.value)
    else if Truthy(body) then
      var clean := CleanBody(body.value);
      if |clean| > PreviewLimit then clean[..PreviewLimit] + "..." else clean
    else
      ""
  }

  /** A description from the preview is never blank and has no whitespace at either end. */
  lemma DescriptionFromPreview(preview: Option<string>, body: Option<string>)
    requires HasPreview(preview)
    ensures Description(preview, body) != []
    ensures !IsSpace(Description(preview, body)[0])
    ensures !IsSpace(Description(preview, body)[|Description(preview, body)| - 1])
  {
  }

  /** A description taken from the body is on one line. */
  lemma DescriptionOneLine(preview: Option<string>, body: Option<string>)
    requires !HasPreview(preview)
    ensures '\n' !in Description(preview, body)
  {
    if Truthy(body) {
      var s := StripHeadings(body.value);
      var n := ReplaceRuns(s, Newline, ' ');
      ReplaceRunsChars(s, Newline, ' ', false);
      TrimChars(n);
      var clean := CleanBody(body.value);
      assert '\n' !in clean;
      if |clean| > PreviewLimit {
        assert forall c :: c in clean[..PreviewLimit] ==> c in clean;
        assert Description(preview, body) == clean[..PreviewLimit] + "...";
      }
    }
  }

  /** A description taken from the body starts with the cleaned body: its first 200 characters, or all of it. */
  lemma DescriptionIsPrefix(preview: Option<string>, body: Option<string>)
    requires !HasPreview(preview) && Truthy(body)
    ensures var clean := CleanBody(body.value);
      var d := Description(preview, body);
      if |clean| <= PreviewLimit then d == clean
      else d[..PreviewLimit] == clean[..PreviewLimit] && d[PreviewLimit..] == "..."
  {
  }

  /** Cleaning a body without '#' and line feeds only trims it. */
  lemma CleanPlainBody(body: string)
    requires forall i :: 0 <= i < |body| ==> body[i] != '#' && body[i] != '\n'
    ensures CleanBody(body) == Trim(body)
  {
    StripHeadingsNoHash(body, true);
    ReplaceRunsNone(body, Newline, ' ', false);
  }

  /** A short body without headers and line breaks is only trimmed. */
  lemma DescriptionPlainBody(preview: Option<string>, body: string)
    requires !HasPreview(preview) && body != ""
    requires forall i :: 0 <= i < |body| ==> body[i] != '#' && body[i] != '\n'
    requires |Trim(body)| <= PreviewLimit
    ensures Description(preview, Some(body)) == Trim(body)
  {
    CleanPlainBody(body);
  }

  /** Only line feeds are replaced: a carriage return in the body stays in the description. */
  lemma DescriptionKeepsCarriageReturn(body: string)
    requires body == "a\rb"
    ensures Description(None, Some(body)) == body
    ensures '\r' in Description(None, Some(body))
  {
    assert body[0] == 'a' && body[1] == '\r' && body[2] == 'b';
    TrimKeeps(body);
    DescriptionPlainBody(None, body);
  }

  // ---------------------------------------------------------------------
  // Slug and content

  /** `dbPost.slug || slugify(dbPost.title || 'untitled')`. */
  function PostSlug(slug: Option<string>, title: Option<string>): (r: string)
    ensures Truthy(slug) ==> r == slug.value
    ensures !Truthy(slug) ==> r == Slugify(OrElse(title, "untitled"))
  {
    if Truthy(slug) then slug.value else Slugify(OrElse(title, "untitled"))
  }

  /** A corollary of PostSlug and SlugifyShape: a slug made up for a row without one is slug-shaped and has no whitespace. */
  lemma DerivedSlugShape(title: Option<string>)
    ensures IsSlugShape(PostSlug(None, title))
    ensures forall i :: 0 <= i < |PostSlug(None, title)| ==> !IsSpace(PostSlug(None, title)[i])
  {
    SlugifyShape(OrElse(title, "untitled"));
  }

  /** A row without a slug titled "Hello, World!" gets the slug "hello-world". */
  lemma PostSlugExample(title: string)
    requires title == "Hello, World!"
    ensures PostSlug(None, Some(title)) == "hello-world"
  {
    assert PostSlug(None, Some(title)) == Slugify(title);
    SlugifyHelloWorld();
  }

  /** A row with neither slug nor title (or only empty ones) gets the slug "untitled". */
  lemma UntitledSlug(slug: Option<string>, title: Option<string>)
    requires !Truthy(slug) && !Truthy(title)
    ensures PostSlug(slug, title) == "untitled"
  {
    var u := "untitled";
    assert IsSlugShape(u) by {
      assert forall i :: 0 <= i < |u| ==> IsLowerLetter(u[i]);
    }
    SlugifyKeepsSlugs(u);
  }

  /** A title made only of punctuation gives the empty slug. */
  lemma DerivedSlugCanBeEmpty(slug: Option<string>, title: string)
    requires !Truthy(slug) && title != ""
    requires forall i :: 0 <= i < |title| ==> !IsKept(title[i])
    ensures PostSlug(slug, Some(title)) == ""
  {
    SlugifyEmpty(title);
  }

  /** `subheader + "\n\n" + body` when both are there, otherwise whichever one is, else "". */
  function FullContent(subheader: Option<string>, body: Option<string>): (r: string)
    ensures |r| == |OrElse(subheader, "")| + |OrElse(body, "")| + (if Truthy(subheader) && Truthy(body) then 2 else 0)
    ensures r == "" <==> !Truthy(subheader) && !Truthy(body)
    ensures Truthy(subheader) ==> r[..|subheader.value|] == subheader.value
    ensures Truthy(body) ==> r[|r| - |body.value|..] == body.value
    ensures Truthy(subheader) && Truthy(body) ==>
      r[|subheader.value|..|subheader.value| + 2] == "\n\n"
  {
    if Truthy(subheader) && Truthy(body) then
      var r := subheader.value + "\n\n" + body.value;
      assert r[..|subheader.value|] == subheader.value;
      assert r[|subheader.value|..|subheader.value| + 2] == "\n\n";
      assert r[|r| - |body.value|..] == body.value;
      r
    else if Truthy(body) then
      body.value
    else if Truthy(subheader) then
      subheader.value
    else
      ""
  }

  /** A subheader and a body are joined with a blank line. */
  lemma FullContentExample()
    ensures FullContent(Some("S"), Some("B")) == "S\n\nB"
  {
  }

  // ---------------------------------------------------------------------
  // The transformation

  /**
   * `transformDatabasePost`. The month-and-year formatting of `created_at`
   * is the locale library's and is passed in as monthYear.
   */
  function TransformDatabasePost(row: DbPost, monthYear: string -> string): (p: Post)
    ensures p.published
    ensures p.allCategories.Some? && p.tags == p.allCategories.value
    ensures p.date == monthYear(row.createdAt)
  {
    var names := AllCategoryNames(row.postCategories.GetOr([]));
    Post(
      id := row.id,
      title := OrElse(row.title, "Untitled"),
      slug := PostSlug(row.slug, row.title),
      category := PrimaryCategory(names),
      date := monthYear(row.createdAt),
      description := Description(row.preview, row.body),
      content := FullContent(row.subheader, row.body),
      tags := names,
      published := true,
      allCategories := Some(names),
      subheader := OrElse(row.subheader, ""),
      body := OrElse(row.body, ""))
  }

  /**
   * What every transformed post satisfies, whatever the row held: the title
   * falls back to "Untitled", the slug to the slug of the title (or of
   * "untitled"), the subheader and body to "".
   */
  lemma TransformedTitleAndSlug(row: DbPost, monthYear: string -> string, p: Post)
    requires p == TransformDatabasePost(row, monthYear)
    ensures p.id == row.id
    ensures p.title == OrElse(row.title, "Untitled") && p.title != ""
    ensures Truthy(row.slug) ==> p.slug == row.slug.value
    ensures !Truthy(row.slug) ==> p.slug == Slugify(OrElse(row.title, "untitled")) && IsSlugShape(p.slug)
    ensures p.subheader == OrElse(row.subheader, "") && p.body == OrElse(row.body, "")
  {
    DerivedSlugShape(row.title);
  }

  lemma TransformedCategories(row: DbPost, monthYear: string -> string, p: Post)
    requires p == TransformDatabasePost(row, monthYear)
    ensures |p.tags| <= |row.postCategories.GetOr([])|
    ensures p.tags != [] ==> p.category in p.tags
    ensures p.category == Mixed <==> forall i :: 0 <= i < |p.tags| ==> p.tags[i] == Mixed
  {
  }

  lemma TransformedDescription(row: DbPost, monthYear: string -> string, p: Post)
    requires p == TransformDatabasePost(row, monthYear)
    ensures !HasPreview(row.preview) ==> |p.description| <= PreviewLimit + 3 && '\n' !in p.description
  {
    assert p.description == Description(row.preview, row.body);
    if !HasPreview(row.preview) {
      DescriptionOneLine(row.preview, row.body);
    }
  }

  lemma TransformedContent(row: DbPost, monthYear: string -> string, p: Post)
    requires p == TransformDatabasePost(row, monthYear)
    ensures p.content == "" <==> p.subheader == "" && p.body == ""
  {
  }

  /**
   * The whole transformation on one row: "Launch Day" with no slug, no
   * preview, the body "# Intro\nWe shipped." and the categories "Tech" and
   * "General".
   */
  lemma TransformExample(row: DbPost, monthYear: string -> string, p: Post)
    requires row.title == Some("Launch Day") && row.slug == None && row.preview == None
    requires row.body == Some("# Intro\nWe shipped.")
    requires row.postCategories == Some([
      PostCategoryRow(Some(CategoryRow(1, Some("Tech")))),
      PostCategoryRow(Some(CategoryRow(2, Some("General"))))])
    requires p == TransformDatabasePost(row, monthYear)
    ensures p.slug == "launch-day"
    ensures p.category == Technology
    ensures p.allCategories == Some([Technology, Mixed])
    ensures p.description == "Intro We shipped."
  {
    TransformedTitleAndSlug(row, monthYear, p);
    SlugifyLaunchDay();
    ExampleCategories(row.postCategories.value);
    ExamplePrimary([Technology, Mixed]);
    ExampleDescription(row.body.value);
  }

  /** A name whose lower-cased form is a synonym of c maps to c. */
  lemma NameMaps(name: string, lower: string, c: Category)
    requires |name| == |lower| && forall i :: 0 <= i < |name| ==> Lower(name[i]) == lower[i]
    requires lower in Synonyms(c)
    ensures MapCategoryName(name) == c
  {
    LowerCaseOf(name, lower);
    assert "" + name + "" == name;
    SynonymMaps("", name, "", c);
  }

  lemma ExampleCategories(joins: seq<PostCategoryRow>)
    requires joins == [
      PostCategoryRow(Some(CategoryRow(1, Some("Tech")))),
      PostCategoryRow(Some(CategoryRow(2, Some("General"))))]
    ensures AllCategoryNames(joins) == [Technology, Mixed]
  {
    var names := ExamplePresentNames(joins);
    ExampleTech(names[0]);
    ExampleGeneral(names[1]);
    CategoriesOfTwo(joins, names, Technology, Mixed);
  }

  /** Two present names give the two categories they map to, in order. */
  lemma CategoriesOfTwo(joins: seq<PostCategoryRow>, names: seq<string>, c0: Category, c1: Category)
    requires PresentNames(joins) == names && |names| == 2
    requires MapCategoryName(names[0]) == c0 && MapCategoryName(names[1]) == c1
    ensures AllCategoryNames(joins) == [c0, c1]
  {
    AllCategoryNamesMapped(joins);
  }

  lemma ExamplePresentNames(joins: seq<PostCategoryRow>) returns (names: seq<string>)
    requires joins == [
      PostCategoryRow(Some(CategoryRow(1, Some("Tech")))),
      PostCategoryRow(Some(CategoryRow(2, Some("General"))))]
    ensures names == ["Tech", "General"] && PresentNames(joins) == names
  {
    names := ["Tech", "General"];
    PresentNamesAllNamed(joins, names);
  }

  lemma ExampleTech(name: string)
    requires name == "Tech"
    ensures MapCategoryName(name) == Technology
  {
    NameMaps(name, "tech", Technology);
  }

  lemma ExampleGeneral(name: string)
    requires name == "General"
    ensures MapCategoryName(name) == Mixed
  {
    NameMaps(name, "general", Mixed);
  }

  lemma ExamplePrimary(names: seq<Category>)
    requires names == [Technology, Mixed]
    ensures PrimaryCategory(names) == Technology
  {
    assert Specific(names) == [Technology];
  }

  lemma ExampleDescription(body: string)
    requires body == "# Intro\nWe shipped."
    ensures Description(None, Some(body)) == "Intro We shipped."
  {
    var rest := "Intro\nWe shipped.";
    StripHeadingsExample(body, rest);
    var spaced := ExampleNewlines(rest);
    ExampleTrimmed(spaced);
  }

  lemma ExampleNewlines(rest: string) returns (spaced: string)
    requires rest == "Intro\nWe shipped."
    ensures spaced == "Intro We shipped."
    ensures ReplaceRuns(rest, Newline, ' ') == spaced
  {
    spaced := "Intro We shipped.";
    assert rest == "Intro" + "\n" + "We shipped.";
    ReplaceRunsSingle("Intro", "\n", "We shipped.", Newline, ' ');
    assert "Intro" + [' '] + "We shipped." == spaced;
  }

  lemma ExampleTrimmed(spaced: string)
    requires spaced == "Intro We shipped."
    ensures Trim(spaced) == spaced && |spaced| <= PreviewLimit
  {
    TrimKeeps(spaced);
  }

  // ---------------------------------------------------------------------
  // The fetchers

  function TransformAll(rows: seq<DbPost>, monthYear: string -> string): (posts: seq<Post>)
    ensures |posts| == |rows|
    ensures forall i :: 0 <= i < |rows| ==> posts[i] == TransformDatabasePost(rows[i], monthYear)
  {
    seq(|rows|, i requires 0 <= i < |rows| => TransformDatabasePost(rows[i], monthYear))
  }

  /** `getPosts`: every fetched row transformed, in the fetched order; an error gives []. */
  function GetPosts(response: Response<seq<DbPost>>, monthYear: string -> string): (posts: seq<Post>)
    ensures response.Failed() || response.data.None? ==> posts == []
    ensures !response.Failed() && response.data.Some? ==>
      |posts| == |response.data.value| &&
      forall i :: 0 <= i < |posts| ==> posts[i] == TransformDatabasePost(response.data.value[i], monthYear)
  {
    if response.Failed() then []
    else match response.data
      case None => []
      case Some(rows) => TransformAll(rows, monthYear)
  }

  /** `getPostById` and `getPostBySlug`: the transformed row, or null on an error or when nothing matched. */
  function GetPost(response: Response<DbPost>, monthYear: string -> string): (post: Option<Post>)
    ensures post.Some? <==> !response.Failed() && response.data.Some?
    ensures post.Some? ==> post.value == TransformDatabasePost(response.data.value, monthYear)
  {
    if response.Failed() then None
    else match response.data
      case None => None
      case Some(row) => Some(TransformDatabasePost(row, monthYear))
  }
}
