/**
 * The article page of src/components/PostView.tsx: which category badges it
 * shows, which text it renders as the body, and the loading state it steps
 * through for the slug in the address.
 */
module PostView {
  import opened Nullable
  import opened PostTypes
  import opened Palette
  import PostService

  /**
   * The badges: the specific (non-Mixed) entries of the category list when
   * there are any; otherwise the primary category, unless it is Mixed.
   */
  function Badges(post: Post): (badges: seq<Category>)
    ensures Mixed !in badges
    ensures |badges| <= 1 || (post.allCategories.Some? && badges == Specific(post.allCategories.value))
  {
    if post.allCategories.Some? && |Specific(post.allCategories.value)| > 0 then
      Specific(post.allCategories.value)
    else if post.category != Mixed then
      [post.category]
    else
      []
  }

  /** With a specific entry in the list, the badges are exactly the list's specific entries, in order. */
  lemma BadgesFromList(post: Post)
    requires post.allCategories.Some?
    requires exists i :: 0 <= i < |post.allCategories.value| && post.allCategories.value[i] != Mixed
    ensures Badges(post) == Specific(post.allCategories.value)
  {
    var i :| 0 <= i < |post.allCategories.value| && post.allCategories.value[i] != Mixed;
    assert post.allCategories.value[i] in Specific(post.allCategories.value);
  }

  /** Without one, a single badge is shown for the primary category exactly when it is not Mixed. */
  lemma BadgeFromPrimary(post: Post)
    requires post.allCategories.None? || forall i :: 0 <= i < |post.allCategories.value| ==> post.allCategories.value[i] == Mixed
    ensures Badges(post) == (if post.category != Mixed then [post.category] else [])
  {
    if post.allCategories.Some? {
      var cats := post.allCategories.value;
      if Specific(cats) != [] {
        assert Specific(cats)[0] in cats;
      }
    }
  }

  /** No badge is ever drawn in the fallback grey. */
  lemma BadgesNotGrey(post: Post)
    ensures forall c :: c in Badges(post) ==> CategoryColor(Name(c)) != Grey
  {
    forall c | c in Badges(post) ensures CategoryColor(Name(c)) != Grey {
      OnlyMixedIsGrey(c);
    }
  }

  /** `post.body || post.content`: the text rendered as the article. */
  function ArticleText(post: Post): (text: string)
    ensures post.body != "" ==> text == post.body
    ensures post.body == "" ==> text == post.content
  {
    if post.body != "" then post.body else post.content
  }

  /**
   * For a post built by the service, the article is the body when the row
   * has one, and otherwise the subheader (or nothing), which the page then
   * shows a second time below the title.
   */
  lemma ArticleOfTransformedPost(row: PostService.DbPost, monthYear: string -> string, post: Post)
    requires post == PostService.TransformDatabasePost(row, monthYear)
    ensures ArticleText(post) == (if Truthy(row.body) then row.body.value else OrElse(row.subheader, ""))
  {
    assert post.body == OrElse(row.body, "");
    assert post.content == PostService.FullContent(row.subheader, row.body);
  }

  /** What the page renders. */
  datatype Phase = Loading | NotFound | Showing(post: Post)

  /** The page's state: whether it is loading, and the post once fetched. */
  class PostPage {
    var loading: bool
    var post: Option<Post>

    constructor()
      ensures loading && post == None
    {
      loading := true;
      post := None;
    }

    function CurrentPhase(): (phase: Phase)
      reads this
      ensures phase == Loading <==> loading
      ensures phase == NotFound <==> !loading && post.None?
      ensures !loading && post.Some? ==> phase == Showing(post.value)
    {
      if loading then Loading
      else match post
        case None => NotFound
        case Some(p) => Showing(p)
    }

    /**
     * The start of `loadPost` for the route's slug: without a slug loading
     * ends and no fetch is asked for; with one, loading is set and the slug
     * is what the service is asked for.
     */
    method BeginLoad(slug: Option<string>) returns (request: Option<string>)
      modifies this
      ensures post == old(post)
      ensures !Truthy(slug) ==> request == None && !loading
      ensures Truthy(slug) ==> request == slug && loading
    {
      if !Truthy(slug) {
        loading := false;
        return None;
      }
      loading := true;
      request := slug;
    }

    /**
     * The end of `loadPost`: fetched is what `getPostBySlug` resolved to, or
     * None when it threw, which leaves the post as it was.
     */
    method FinishLoad(fetched: Option<Option<Post>>)
      modifies this
      ensures !loading
      ensures post == fetched.GetOr(old(post))
    {
      if fetched.Some? {
        post := fetched.value;
      }
      loading := false;
    }
  }

  /** A page opened without a slug asks for nothing and lands on "Post not found". */
  method OpenWithoutSlug(slug: Option<string>) returns (request: Option<string>, phase: Phase)
    requires !Truthy(slug)
    ensures request == None
    ensures phase == NotFound
  {
    var page := new PostPage();
    request := page.BeginLoad(slug);
    phase := page.CurrentPhase();
  }

  /** A page opened with a slug shows the fetched post, or "Post not found" when there is none. */
  method OpenWithSlug(slug: string, fetched: Option<Post>) returns (request: Option<string>, phase: Phase)
    requires slug != ""
    ensures request == Some(slug)
    ensures fetched.None? ==> phase == NotFound
    ensures fetched.Some? ==> phase == Showing(fetched.value)
  {
    var page := new PostPage();
    request := page.BeginLoad(Some(slug));
    page.FinishLoad(Some(fetched));
    phase := page.CurrentPhase();
  }
}
