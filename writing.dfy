/**
 * The rules of the writing page (src/components/Writing.tsx): the category
 * buttons, the selection toggle, the category filter, the card badges and
 * the empty-state text, with the page's state as a class.
 */
module Writing {
  import opened Nullable
  import opened PostTypes
  import opened Palette

  /** A filter button: the category it selects, its label and its colour. */
  datatype CategoryButton = CategoryButton(id: Category, name: string, color: string)

  /** The buttons, Mixed first. */
  const Buttons: seq<CategoryButton> := [
    CategoryButton(Mixed, "Mixed", "#757575"),
    CategoryButton(Technology, "Technology", "#1976D2"),
    CategoryButton(Finance, "Finance", "#7B1FA2"),
    CategoryButton(Personal, "Personal", "#FF9800")]

  /** There is one button per category, Mixed first, each in the colour the posts use for it. */
  lemma ButtonsAgreeWithColors()
    ensures Buttons[0].id == Mixed
    ensures {Buttons[0].id, Buttons[1].id, Buttons[2].id, Buttons[3].id} == {Mixed, Technology, Finance, Personal}
    ensures forall i :: 0 <= i < |Buttons| ==> Buttons[i].color == CategoryColor(Name(Buttons[i].id))
  {
  }

  /** The selection a page starts with. */
  const InitialSelection: Option<Category> := Some(Mixed)

  /** `handleCategoryClick`: clicking the selected category clears the selection, any other selects it. */
  function NextSelection(current: Option<Category>, clicked: Category): (next: Option<Category>)
    ensures next == None <==> current == Some(clicked)
    ensures next != None ==> next == Some(clicked)
  {
    if current == Some(clicked) then None else Some(clicked)
  }

  /** Clicking the same category twice from no selection, or from that category, comes back to where it started. */
  lemma ClickTwice(current: Option<Category>, clicked: Category)
    requires current == None || current == Some(clicked)
    ensures NextSelection(NextSelection(current, clicked), clicked) == current
  {
  }

  /** `post.allCategories && post.allCategories.includes(selected)`. */
  predicate HasCategory(post: Post, selected: Category) {
    post.allCategories.Some? && selected in post.allCategories.value
  }

  /** The posts having the category, in their order. */
  function PostsIn(posts: seq<Post>, selected: Category): (r: seq<Post>)
    ensures |r| <= |posts|
    ensures forall p :: p in r <==> p in posts && HasCategory(p, selected)
  {
    if posts == [] then []
    else if HasCategory(posts[0], selected) then [posts[0]] + PostsIn(posts[1..], selected)
    else PostsIn(posts[1..], selected)
  }

  /** `filteredPosts`: all posts with no selection, else those whose categories include it. */
  function FilterPosts(posts: seq<Post>, selected: Option<Category>): (r: seq<Post>)
    ensures selected.None? ==> r == posts
    ensures selected.Some? ==> r == PostsIn(posts, selected.value)
  {
    match selected
    case None => posts
    case Some(s) => PostsIn(posts, s)
  }

  /** The filter keeps the order of the posts: filtering a + b is filtering a, then b. */
  lemma {:induction false} PostsInAppend(a: seq<Post>, b: seq<Post>, selected: Category)
    ensures PostsIn(a + b, selected) == PostsIn(a, selected) + PostsIn(b, selected)
  {
    if a == [] {
      assert a + b == b;
    } else {
      assert (a + b)[1..] == a[1..] + b;
      PostsInAppend(a[1..], b, selected);
    }
  }

  /** When every post has the category, the filter keeps them all. */
  lemma {:induction false} PostsInAll(posts: seq<Post>, selected: Category)
    requires forall i :: 0 <= i < |posts| ==> HasCategory(posts[i], selected)
    ensures PostsIn(posts, selected) == posts
  {
    if posts != [] {
      PostsInAll(posts[1..], selected);
    }
  }

  /** A post without a category list is never shown under a selection, not even under Mixed. */
  lemma UncategorisedHidden(posts: seq<Post>, post: Post, selected: Category)
    requires post.allCategories.None?
    ensures post !in FilterPosts(posts, Some(selected))
  {
  }

  /**
   * A post whose category list is there but empty (a row with no named
   * category) is listed as Mixed on its card, yet no selection shows it,
   * Mixed included: only "no selection" does.
   */
  lemma UnnamedHidden(posts: seq<Post>, post: Post, selected: Category)
    requires post.allCategories == Some([])
    ensures post !in FilterPosts(posts, Some(selected))
    ensures post in posts ==> post in FilterPosts(posts, None)
  {
  }

  /** What a card shows of a post's categories: at most two, and how many more there are. */
  datatype CardCategories = CardCategories(shown: seq<Category>, more: Option<nat>)

  /**
   * The card rule: with a non-empty category list, its first two entries and
   * "+n more" when there are more than two; otherwise the primary category.
   */
  function CardBadges(post: Post): (card: CardCategories)
    ensures |card.shown| <= 2
    ensures post.allCategories.Some? && post.allCategories.value != [] ==>
      var cats := post.allCategories.value;
      && |card.shown| <= |cats|
      && card.shown == cats[..|card.shown|]
      && (card.more.Some? <==> |cats| > 2)
      && (card.more.Some? ==> |card.shown| == 2 && card.more.value == |cats| - 2)
      && (card.more.None? ==> card.shown == cats)
    ensures post.allCategories.None? || post.allCategories.value == [] ==>
      card == CardCategories([post.category], None)
  {
    if post.allCategories.Some? && |post.allCategories.value| > 0 then
      var cats := post.allCategories.value;
      var shown := if |cats| < 2 then cats else cats[..2];
      CardCategories(shown, if |cats| > 2 then Some(|cats| - 2) else None)
    else
      CardCategories([post.category], None)
  }

  /** The text under an empty list, shown only once loading is over and no post passes the filter. */
  function EmptyStateText(filtered: seq<Post>, selected: Option<Category>, loading: bool): (text: Option<string>)
    ensures text.Some? <==> filtered == [] && !loading
    ensures text.Some? ==> text.value == (if selected.Some? then "No posts found in this category." else "No posts available.")
  {
    if filtered == [] && !loading then
      Some(if selected.Some? then "No posts found in this category." else "No posts available.")
    else None
  }

  /** The page's state: the selected category, the loaded posts, and whether they are still loading. */
  class WritingPage {
    var selectedCategory: Option<Category>
    var posts: seq<Post>
    var loading: bool

    constructor()
      ensures selectedCategory == InitialSelection && posts == [] && loading
    {
      selectedCategory := InitialSelection;
      posts := [];
      loading := true;
    }

    /** The posts the page lists. */
    function FilteredPosts(): (r: seq<Post>)
      reads this
      ensures r == FilterPosts(posts, selectedCategory)
      ensures selectedCategory.None? ==> r == posts
      ensures forall p :: p in r ==> p in posts
    {
      FilterPosts(posts, selectedCategory)
    }

    method HandleCategoryClick(categoryId: Category)
      modifies this
      ensures selectedCategory == NextSelection(old(selectedCategory), categoryId)
      ensures posts == old(posts) && loading == old(loading)
    {
      selectedCategory := if selectedCategory == Some(categoryId) then None else Some(categoryId);
    }

    /** `setLoading(true)` before the fetch. */
    method BeginLoad()
      modifies this
      ensures loading
      ensures selectedCategory == old(selectedCategory) && posts == old(posts)
    {
      loading := true;
    }

    /**
     * The end of the fetch: fetched is the list `getPosts` resolved to, or
     * None when it threw, which leaves the posts as they were.
     */
    method FinishLoad(fetched: Option<seq<Post>>)
      modifies this
      ensures !loading
      ensures posts == fetched.GetOr(old(posts))
      ensures selectedCategory == old(selectedCategory)
    {
      if fetched.Some? {
        posts := fetched.value;
      }
      loading := false;
    }
  }

  /** A fresh page lists the Mixed posts once they have loaded; clicking Mixed then lists every post. */
  method LoadThenClearSelection(fetched: seq<Post>) returns (before: seq<Post>, after: seq<Post>)
    ensures before == PostsIn(fetched, Mixed)
    ensures after == fetched
  {
    var page := new WritingPage();
    page.BeginLoad();
    page.FinishLoad(Some(fetched));
    before := page.FilteredPosts();
    page.HandleCategoryClick(Mixed);
    after := page.FilteredPosts();
  }
}
