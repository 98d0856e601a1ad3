# Post and project pipeline of a personal site, in Dafny

This project models the logic of a small React portfolio and blog site.

**Post pipeline** (`src/services/postService.ts`). A fetched `writing_posts` row, with its joined `post_categories`/`categories` rows, becomes the flat `Post` record the pages use:
- free-text category names are normalised into four categories (`mapCategoryName`);
- a primary category is picked;
- a description is taken from the preview or the body, with Markdown headers stripped and a 200-character cap;
- a missing slug is derived from the title;
- subheader and body are joined into the content.

**Slugs** (`src/utils/slugify.ts`): `slugify` and `deslugify`.

**Project pipeline** (`src/services/projectService.ts`): field defaulting of `projects` rows, plus the error discipline of the fetchers.

**Client rules**:
- the writing page (`src/components/Writing.tsx`): category buttons, the toggle of the selected category, the category filter, the card badges and the empty-state text;
- the path classifier (`src/App.tsx`);
- the article page (`src/components/PostView.tsx`): the badge rule, the body fallback and the loading states for the slug in the address.

Modules, one per source file plus shared ones:
- `Nullable`: null/undefined as `Option`, and JavaScript truthiness (`''` counts as absent for `||` and `if`).
- `Query`: what a row-store query resolves to (`{ data, error }` or a thrown exception), taken as an input.
- `Strings`: the JavaScript string built-ins used, for ASCII text. It covers `toLowerCase`, `trim`, `startsWith`, `\s`, `\w`, and `replace(/X+/g, c)` for a one-character class X.
- `Slug`: `slugify` and `deslugify`.
- `PostTypes`, `ProjectTypes`: the record shapes.
- `PostService`, `ProjectService`: the transformations and the fetchers.
- `Palette`: `getCategoryColor`, which both pages define identically.
- `Writing`, `App`, `PostView`: the client rules. The page state is a class whose methods update its fields.

Behaviour of the code that a reader might not expect:
- A derived slug can be empty, and it can start or end with `-`. `slugify`'s final `trim()` removes only whitespace, and none is left by then (`Slug.SlugifyTrimIsNoOp`, `Slug.SlugifyBangs`, `PostService.DerivedSlugCanBeEmpty`).
- `mapCategoryName` lower-cases and trims before matching, so `"  Tech  "` maps to technology (`PostService.SynonymMaps`, `PostService.CategoryNameExample`).
- A post whose joined categories are all unnamed gets an empty category list and the primary category Mixed. Its card shows Mixed, but no selection lists it, Mixed included; only "no selection" does (`PostService.TransformedCategories`, `Writing.UnnamedHidden`).
- Only line feeds are replaced in a description made from the body: a body with CRLF line ends keeps its `\r` characters (`PostService.DescriptionKeepsCarriageReturn`).
- Every category of a post comes from the one joined query; there is no second query per post.

## Model

| member | source | states |
|---|---|---|
| Nullable.OrElse | src/services/postService.ts:201 | `s \|\| d` gives s when it is present and non-empty, else d |
| Strings.ToLowerCase | src/utils/slugify.ts:3 | same length; each character lower-cased; no upper-case letter remains |
| Strings.ToLowerCaseTwice | src/services/postService.ts:7 | lower-casing is idempotent |
| Strings.LowerCaseOf | src/utils/slugify.ts:3 | a string that is t character by character after lower-casing has t as its `toLowerCase()` |
| Strings.Trim | src/services/postService.ts:7 | the result is no longer than s, has no whitespace at either end, and is empty exactly when s is all whitespace |
| Strings.TrimParts | src/services/postService.ts:7 | s is whitespace + trim(s) + whitespace |
| Strings.TrimIgnoresPadding | src/services/postService.ts:7 | extra whitespace around s does not change trim(s) |
| Strings.ReplaceRunsFrom | src/utils/slugify.ts:5-6 | the run scanner behind `replace(/X+/g, c)`, carrying whether the previous character was in the class; never longer than its input |
| Strings.ReplaceRuns | src/utils/slugify.ts:5-6 | `s.replace(/X+/g, c)` never lengthens s; what it keeps and produces is stated by the lemmas below |
| Strings.ReplaceRunsChars | src/utils/slugify.ts:5-6 | each result character is the replacement or a character of s outside the class |
| Strings.ReplaceRunsSeparates | src/utils/slugify.ts:6 | replacing runs by a member of the class leaves no two class characters adjacent |
| Strings.ReplaceRunsNone | src/services/postService.ts:178 | a string without class characters is unchanged |
| Strings.ReplaceRunsPrefix | src/utils/slugify.ts:5 | a prefix without class characters is copied, and the scan after it starts outside a run |
| Strings.ReplaceRunsRun | src/utils/slugify.ts:5 | a whole run of class characters becomes one replacement character |
| Strings.ReplaceRunsSingle | src/utils/slugify.ts:5 | one run between two run-free parts becomes exactly one replacement: x + run + y gives x + c + y |
| Slug.RemoveSpecialChars | src/utils/slugify.ts:4 | the characters kept are exactly the word, whitespace and `-` characters of s |
| Slug.RemoveSpecial | src/utils/slugify.ts:4 | never longer than its input; the kept characters are exactly the `[\w\s-]` ones (`Slug.RemoveSpecialChars`) |
| Slug.RemoveSpecialSingle | src/utils/slugify.ts:4 | one character stays exactly when it is a word, whitespace or `-` character, else it is dropped |
| Slug.RemoveSpecialAppend | src/utils/slugify.ts:4 | the replace works character by character: removing from a + b is removing from a, then from b, so order and repeats are kept |
| Slug.RemoveSpecialBetween | src/utils/slugify.ts:4 | kept text with one special character after each of its two parts loses exactly those two characters |
| Slug.Slugify | src/utils/slugify.ts:1-8 | every slug is slug-shaped: only a-z, 0-9, `_` and `-`, never two hyphens in a row |
| Slug.Squeezed | src/utils/slugify.ts:2-6 | the chain before the final `trim()`: lower-case, remove specials, whitespace runs to `-`, hyphen runs to `-`; no contract of its own, `Slug.SqueezedShape` states its shape |
| Slug.SlugifyShape | src/utils/slugify.ts:2-7 | a corollary of `Slug.Slugify`'s contract that adds one fact: no whitespace is left in a slug |
| Slug.SlugifyTrimIsNoOp | src/utils/slugify.ts:7 | the final trim removes nothing, so leading or trailing `-` survive |
| Slug.SlugifyEmpty | src/utils/slugify.ts:2-7 | a title with no word, whitespace or `-` character has the empty slug |
| Slug.SlugifyBangs | src/utils/slugify.ts:2-7 | `slugify("!!!")` is the empty string |
| Slug.SlugifyLaunchDay | src/utils/slugify.ts:2-7 | `slugify("Launch Day")` is `launch-day` |
| Slug.SlugifyHelloWorld | src/utils/slugify.ts:2-7 | `slugify("Hello, World!")` is `hello-world`: the comma and `!` are dropped, the space becomes `-` |
| Slug.SlugifyKeepsSlugs | src/utils/slugify.ts:2-7 | a slug-shaped string is its own slug |
| Slug.SlugifyIdempotent | src/utils/slugify.ts:2-7 | slugify(slugify(t)) == slugify(t) |
| Slug.Split | src/utils/slugify.ts:12 | at least one piece; no piece holds the separator |
| Slug.JoinSplit | src/utils/slugify.ts:12-14 | joining the pieces of a split with the separator gives back the string |
| Slug.Join | src/utils/slugify.ts:14 | `pieces.join(sep)`: no contract of its own; `Slug.JoinSplit` states it undoes `split` |
| Slug.Capitalize | src/utils/slugify.ts:13 | same length; the first character upper-cased and the rest kept |
| Slug.CapitalizeAll | src/utils/slugify.ts:13 | `words.map(capitalize)`: one result per word, the i-th being the i-th word capitalised |
| Slug.Deslugify | src/utils/slugify.ts:10-15 | same length as the slug; each `-` becomes a space, a piece's first character is upper-cased, the others are kept; no `-` remains |
| Slug.DeslugifyByCharacter | src/utils/slugify.ts:11-14 | the character-by-character description of split/capitalize/join, by induction |
| Slug.DeslugifyHyphenStep | src/utils/slugify.ts:12-14 | a leading `-` becomes a space and the text after it starts a new capitalised piece |
| Slug.DeslugifyPlainStep | src/utils/slugify.ts:12-14 | a leading character other than `-` opens or continues the first piece, upper-cased only at a piece start |
| Slug.SlugifyDeslugify | src/utils/slugify.ts:2-15 | slugify(deslugify(s)) == s for every slug-shaped s |
| Slug.SlugRoundTrip | src/utils/slugify.ts:2-15 | every slug survives deslugify and slugify |
| PostTypes.Specific | src/components/PostView.tsx:144 | the non-Mixed categories: no longer than the list, with exactly its non-Mixed members |
| PostTypes.SpecificSingle | src/components/PostView.tsx:144 | one category is kept exactly when it is not Mixed |
| PostTypes.SpecificAppend | src/components/PostView.tsx:144 | the filter keeps order and duplicates: filtering a + b is filtering a, then b |
| PostService.CategoryOf | src/services/postService.ts:9-23 | the normalised name is a synonym of the result, or it is a synonym of nothing and the result is Mixed |
| PostService.Normalized | src/services/postService.ts:7 | `name.toLowerCase().trim()`; no contract of its own, `PostService.MapCategoryNameIgnoresCase` and `PostService.MapCategoryNameIgnoresPadding` state what it buys |
| PostService.MapCategoryName | src/services/postService.ts:6-24 | the lower-cased, trimmed name is a synonym of the result, or it is a synonym of nothing and the result is Mixed |
| PostService.CategoryOfSynonym | src/services/postService.ts:10-20 | every synonym selects its own category |
| PostService.MapCategoryNameCanonical | src/services/postService.ts:9-23 | each category's id maps back to that category |
| PostService.MapCategoryNameIdempotent | src/services/postService.ts:6-24 | mapping the id of a mapped name gives the same category |
| PostService.MapCategoryNameIgnoresCase | src/services/postService.ts:7 | lower-casing the name first does not change the category |
| PostService.MapCategoryNameIgnoresPadding | src/services/postService.ts:7 | whitespace around the name does not change the category |
| PostService.SynonymMaps | src/services/postService.ts:7-22 | a synonym in any case with any surrounding whitespace maps to its category |
| PostService.JoinedName | src/services/postService.ts:146 | `pc.categories?.name`: no contract of its own; the name lemmas below are stated through it |
| PostService.CategoryNameExample | src/services/postService.ts:6-24 | `mapCategoryName("  Tech  ")` is technology |
| PostService.PresentNames | src/services/postService.ts:146-147 | no more names than joins, none of them empty |
| PostService.PresentNamesAppend | src/services/postService.ts:145-147 | names keep join order: the names of a + b are those of a then those of b |
| PostService.PresentNamesSingle | src/services/postService.ts:146-147 | a join without a non-empty name contributes nothing, a named one contributes its name |
| PostService.PresentNamesAllNamed | src/services/postService.ts:145-147 | when every join is named, one name per join in the same order |
| PostService.AllCategoryNames | src/services/postService.ts:139-148 | at most one category per join |
| PostService.AllCategoryNamesMapped | src/services/postService.ts:148 | each category is the mapped name at the same position |
| PostService.PrimaryCategory | src/services/postService.ts:140-161 | the primary is one of the names when there are any, and it is Mixed exactly when every name is Mixed |
| PostService.FirstSpecificAt | src/services/postService.ts:155-157 | the reference scan picks the entry at the first non-Mixed index |
| PostService.PrimaryIsFirstSpecific | src/services/postService.ts:140-161 | the branchy rule equals the first-non-Mixed scan |
| PostService.PrimaryCategoryExample | src/services/postService.ts:140-161 | the primary category of `[mixed, technology]` is technology |
| PostService.StripHeadingsFrom | src/services/postService.ts:177 | header stripping never lengthens the text |
| PostService.StripHeadings | src/services/postService.ts:177 | `body.replace(/^#+\s+/gm, '')` never lengthens the body |
| PostService.HeaderLength | src/services/postService.ts:177 | the length of a `#+\s+` match at the start of the text: positive exactly when the text opens with a `#` run followed by whitespace, and then that run plus the whole whitespace run after it; 0 otherwise; never past its end |
| PostService.StripHeadingsSubsequence | src/services/postService.ts:177 | header stripping only leaves characters out: the result is a subsequence of the text |
| PostService.StripHeadingsMidLine | src/services/postService.ts:177 | inside a line, past its start, every character is kept, `#` included |
| PostService.StripHeadingsKeepsLine | src/services/postService.ts:177 | a line at whose start no header match begins (no `#`, or `#` not followed by whitespace, as in `#1 pick`) is copied whole up to its line break |
| PostService.StripHeadingsNextLine | src/services/postService.ts:177 | a line break followed by a line at whose start no header begins is copied through |
| PostService.StripHeadingsHashtag | src/services/postService.ts:177 | `#1 pick` is not a header and is kept as it is |
| PostService.HeaderLengthOf | src/services/postService.ts:177 | a `#` run followed by a whole whitespace run is a header match of exactly their combined length |
| PostService.StripHeadingsNoHash | src/services/postService.ts:177 | a text without `#` is unchanged |
| PostService.StripHeadingsDropsHeader | src/services/postService.ts:177 | a `#` run plus whitespace at a line start is dropped, and `^` can hold again after it when the whitespace ended in a line terminator |
| PostService.StripHeadingsAtHeader | src/services/postService.ts:177 | at a line start a header match is dropped and the scan resumes right after it |
| PostService.StripHeadingsExample | src/services/postService.ts:177 | `"# Intro\nWe shipped."` becomes `"Intro\nWe shipped."` |
| PostService.CleanBody | src/services/postService.ts:176-179 | no contract of its own; `PostService.CleanPlainBody` and `PostService.DescriptionOneLine` state what it gives |
| PostService.HasPreview | src/services/postService.ts:172 | a preview counts when it is present and not blank after trimming; no contract of its own |
| PostService.Description | src/services/postService.ts:171-184 | the trimmed preview when it is not blank; else at most 203 characters from the body; else empty |
| PostService.DescriptionFromPreview | src/services/postService.ts:172-173 | a description from the preview is non-empty with no whitespace at either end |
| PostService.DescriptionOneLine | src/services/postService.ts:176-183 | a description from the body contains no line feed |
| PostService.DescriptionIsPrefix | src/services/postService.ts:181-183 | a description from the body is the cleaned body, or its first 200 characters followed by `...` |
| PostService.CleanPlainBody | src/services/postService.ts:176-179 | cleaning a body without `#` and line feeds only trims it |
| PostService.DescriptionPlainBody | src/services/postService.ts:174-183 | a short plain body becomes the description trimmed |
| PostService.DescriptionKeepsCarriageReturn | src/services/postService.ts:178 | only line feeds are replaced, so the body `a\rb` gives the description `a\rb`, carriage return included |
| PostService.PostSlug | src/services/postService.ts:187 | a non-empty stored slug is used unchanged; otherwise the slug is `slugify` of the title, or of `untitled` when the title is missing or empty |
| PostService.PostSlugExample | src/services/postService.ts:187 | a row with no slug titled `Hello, World!` gets `hello-world` |
| PostService.DerivedSlugShape | src/services/postService.ts:187 | a corollary of `PostService.PostSlug` and `Slug.SlugifyShape`: a derived slug is slug-shaped and has no whitespace |
| PostService.UntitledSlug | src/services/postService.ts:187 | with no slug and no title the slug is `untitled` |
| PostService.DerivedSlugCanBeEmpty | src/services/postService.ts:187 | a punctuation-only title gives the empty slug |
| PostService.FullContent | src/services/postService.ts:190-197 | with both parts present the content is the subheader, a blank line (`\n\n`), then the body; with one part present it is that part; empty exactly when both are absent |
| PostService.FullContentExample | src/services/postService.ts:190-197 | subheader `S` and body `B` give `"S\n\nB"` |
| PostService.TransformDatabasePost | src/services/postService.ts:199-212 | always published; `tags` equals `allCategories`, which is present; the date is the formatted `created_at` |
| PostService.TransformedTitleAndSlug | src/services/postService.ts:187-202 | the id is the row's; the title is the row's or `Untitled` (never empty); the slug is the stored one or `slugify` of the title (or of `untitled`), slug-shaped; subheader and body are the row's or "" |
| PostService.TransformedCategories | src/services/postService.ts:139-161 | no more tags than joins; the category is among the tags when there are any, and Mixed exactly when all tags are |
| PostService.TransformedDescription | src/services/postService.ts:171-184 | a description from the body is at most 203 characters and contains no line feed (a carriage return can remain) |
| PostService.TransformedContent | src/services/postService.ts:189-211 | the content is empty exactly when subheader and body are |
| PostService.TransformExample | src/services/postService.ts:140-202 | the row titled `Launch Day` with no slug, no preview, body `# Intro\nWe shipped.` and categories `Tech` and `General` gives slug `launch-day`, primary category technology, categories `[technology, mixed]` and description `Intro We shipped.` |
| PostService.NameMaps | src/services/postService.ts:6-24 | a name whose lower-cased form is a synonym of a category maps to that category |
| PostService.TransformAll | src/services/postService.ts:57 | one post per row, in row order |
| PostService.GetPosts | src/services/postService.ts:28-62 | an error, a throw or null data gives []; otherwise each row transformed in order |
| PostService.GetPost | src/services/postService.ts:101-134 | a post exactly when the query succeeded with a row, and then the transformed row |
| ProjectService.TransformDatabaseProject | src/services/projectService.ts:47-58 | the title is non-empty; the subheader is present; id and timestamps are copied |
| ProjectService.TransformProjectDefaults | src/services/projectService.ts:50-54 | present non-empty values pass through; absent or empty ones get `Untitled Project`, `''` or `[]` |
| ProjectService.TransformProjectIdempotent | src/services/projectService.ts:47-58 | transforming a transformed project changes nothing |
| ProjectService.TransformAll | src/services/projectService.ts:18 | one project per row, in row order |
| ProjectService.GetProjects | src/services/projectService.ts:6-23 | an error, a throw or null data gives []; otherwise each row transformed, same length and order |
| ProjectService.GetProjectById | src/services/projectService.ts:26-44 | a project exactly when the query succeeded with a row, else null |
| Palette.CategoryMapKeys | src/components/Writing.tsx:39-44 | the map's keys are exactly the four ids, each with its category's colour |
| Palette.CategoryColor | src/components/Writing.tsx:38-46 | a category id gets its category's colour; any other text gets `#757575` |
| Palette.OnlyMixedIsGrey | src/components/PostView.tsx:35-43 | among the categories only Mixed is drawn in the fallback grey |
| Writing.ButtonsAgreeWithColors | src/components/Writing.tsx:31-36 | one button per category, Mixed first, each in the colour `getCategoryColor` gives it |
| Writing.NextSelection | src/components/Writing.tsx:70-74 | the selection is cleared exactly when the clicked category was selected, and is the clicked one otherwise |
| Writing.ClickTwice | src/components/Writing.tsx:70-74 | from no selection or from the clicked category, two clicks come back to the start |
| Writing.PostsIn | src/components/Writing.tsx:50-59 | a post is kept exactly when it is in the list and its categories include the selection |
| Writing.HasCategory | src/components/Writing.tsx:55 | the post has a category list holding the selection; no contract of its own |
| Writing.PostsInAppend | src/components/Writing.tsx:50-59 | the filter keeps the order of the posts |
| Writing.PostsInAll | src/components/Writing.tsx:50-59 | when every post has the category, all are kept |
| Writing.FilterPosts | src/components/Writing.tsx:49-60 | no selection gives every post; a selection gives the filter |
| Writing.UncategorisedHidden | src/components/Writing.tsx:55 | a post without a category list is hidden under any selection, Mixed included |
| Writing.UnnamedHidden | src/components/Writing.tsx:55 | a post with an empty category list is hidden under every selection, Mixed included, and listed only with no selection |
| Writing.CardBadges | src/components/Writing.tsx:140-167 | at most two categories, a prefix of the list; `+n more` exactly when there are more than two, with n = length - 2; otherwise the primary category |
| Writing.EmptyStateText | src/components/Writing.tsx:178-184 | a text exactly when nothing is listed and loading is over; which text depends on whether a category is selected |
| Writing.WritingPage.constructor | src/components/Writing.tsx:8-11 | the page starts with Mixed selected, no posts, loading |
| Writing.WritingPage.FilteredPosts | src/components/Writing.tsx:49-60 | the listed posts are the filter of the loaded posts by the current selection (`Writing.FilterPosts`): all of them with no selection, otherwise those having the category |
| Writing.WritingPage.HandleCategoryClick | src/components/Writing.tsx:70-74 | the new selection follows the toggle rule; nothing else changes |
| Writing.WritingPage.BeginLoad | src/components/Writing.tsx:15 | loading is set; nothing else changes |
| Writing.WritingPage.FinishLoad | src/components/Writing.tsx:17-24 | loading ends; the posts are the fetched list, or unchanged when the fetch threw |
| Writing.LoadThenClearSelection | src/components/Writing.tsx:8-74 | a new page lists the Mixed posts after loading, and every post after Mixed is clicked off |
| App.CurrentView | src/App.tsx:16-21 | writing exactly under `/writing`; about and projects exactly for their paths; otherwise landing |
| Strings.StartsWith | src/App.tsx:17-58 | `s.startsWith(prefix)`: the prefix is no longer than s and is its first characters; no contract of its own |
| App.IsWritingRoute | src/App.tsx:58 | the path starts with `/writing`; no contract of its own |
| App.IsPostRoute | src/App.tsx:59-62 | none of the four main paths; `App.PostRouteIsNotMain` relates it to `App.IsMainRoute` |
| App.IsMainRoute | src/App.tsx:63 | one of `/`, `/about`, `/projects`, `/writing`; no contract of its own |
| App.PostRouteIsNotMain | src/App.tsx:59-63 | a path is a post route exactly when it is not a main route |
| App.BelowWriting | src/App.tsx:17-63 | a path under `/writing` other than `/writing` shows the writing view yet is a post route |
| App.WritingSubpathExample | src/App.tsx:17-63 | `/writing/x` is in the writing view, a writing route and a post route, and not a main route |
| App.LandingPaths | src/App.tsx:16-21 | landing exactly for paths not under `/writing` and not `/about` or `/projects` |
| App.LayoutFor | src/App.tsx:67-75 | sidebar and `ml-48` exactly on main routes |
| App.PostRouteLayout | src/App.tsx:59-75 | post routes have no sidebar and no margin |
| PostView.Badges | src/components/PostView.tsx:144-164 | Mixed is never a badge; more than one badge only as the list's specific entries |
| PostView.BadgesFromList | src/components/PostView.tsx:144-146 | with a specific entry in the list, the badges are exactly the list's specific entries in order |
| PostView.BadgeFromPrimary | src/components/PostView.tsx:156-164 | otherwise one badge for the primary category exactly when it is not Mixed |
| PostView.BadgesNotGrey | src/components/PostView.tsx:150-160 | no badge is drawn in the fallback grey |
| PostView.ArticleText | src/components/PostView.tsx:181 | the body when non-empty, else the content |
| PostView.ArticleOfTransformedPost | src/components/PostView.tsx:181 | for a post built by the service, the article is the row's body, else its subheader, else empty |
| PostView.PostPage.constructor | src/components/PostView.tsx:11-12 | the page starts loading with no post |
| PostView.PostPage.CurrentPhase | src/components/PostView.tsx:70-94 | loading while loading; not found exactly when loading is over with no post; otherwise showing the loaded post |
| PostView.PostPage.BeginLoad | src/components/PostView.tsx:15-21 | without a slug loading ends and no fetch is asked for; with one loading is set and that slug is requested; the post is unchanged |
| PostView.PostPage.FinishLoad | src/components/PostView.tsx:22-29 | loading ends; the post is the fetched one, or unchanged when the fetch threw |
| PostView.OpenWithoutSlug | src/components/PostView.tsx:16-19 | without a slug the service is not asked and the page shows not found |
| PostView.OpenWithSlug | src/components/PostView.tsx:15-94 | with a slug that slug is requested; the page shows the fetched post, or not found when there is none |

## Left out

- The row-store queries and client (`src/lib/supabase.ts`, the `select`/`eq`/`order`/`not` builders) are not part of this model. That is network I/O through a library. A query is an input `Response` value, so the `order('created_at', …)` newest-first order and the `.not('slug', 'is', null)` filter are whatever the input rows already are.
- Date formatting (`toLocaleDateString`, and `formatDate` in the article page) is locale and clock behaviour. The month-and-year formatter is a parameter of `PostService.TransformDatabasePost`.
- The Markdown-to-HTML regex chain of the article page (src/components/PostView.tsx:181-190) is out of scope. It uses lazy matching and emits HTML; only the choice of source text (`PostView.ArticleText`) is modelled.
- The timer-driven view transitions of src/App.tsx:25-40, hover state, navigation calls and all JSX are left out.
- Console logging is left out.
- The presentational components are left out: Contact, Sidebar, About, Header, Experience, Hero, Projects, Skills and Footer.
- `src/data/posts.ts` is not part of this model; it only turns null into undefined.
- Characters are restricted to ASCII. Unicode case mapping, Unicode `\s`/`\w` and the extra characters JavaScript's `trim` removes (such as U+00A0 and U+FEFF) are not modelled.
- Palette.CategoryColor: keys inherited from `Object.prototype` (such as `"toString"`) would make the JavaScript lookup return a function, which is not modelled. Every other text gets `#757575`.
- Writing.WritingPage.HandleCategoryClick takes one of the four categories. The buttons are the only callers, so an arbitrary string id is not modelled.
- PostService.DbPost models each join row as present; a null entry in `post_categories`, on which `pc.categories?.name` would throw, is not modelled.
- Route matching itself (react-router's `/:slug`) is out of scope. Only the classifying predicates of src/App.tsx are modelled.
