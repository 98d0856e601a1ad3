/** The view-model record the post pipeline produces (src/types/Post.ts). */
module PostTypes {
  import opened Nullable

  /** The four values of `Post['category']`. */
  datatype Category = Technology | Finance | Personal | Mixed

  /** The id string of a category, as stored in a post and shown on its badge. */
  function Name(c: Category): string {
    match c
    case Technology => "technology"
    case Finance => "finance"
    case Personal => "personal"
    case Mixed => "mixed"
  }

  /** `cats.filter(cat => cat !== 'mixed')`: the specific categories, in their order. */
  function Specific(cats: seq<Category>): (r: seq<Category>)
    ensures |r| <= |cats|
    ensures forall c :: c in r <==> c in cats && c != Mixed
  {
    if cats == [] then []
    else if cats[0] != Mixed then [cats[0]] + Specific(cats[1..])
    else Specific(cats[1..])
  }

  /** One category: kept exactly when it is not Mixed. */
  lemma SpecificSingle(c: Category)
    ensures Specific([c]) == if c == Mixed then [] else [c]
  {
    assert [c][1..] == [];
  }

  /** The filter keeps order and duplicates: it works entry by entry. */
  lemma {:induction false} SpecificAppend(a: seq<Category>, b: seq<Category>)
    ensures Specific(a + b) == Specific(a) + Specific(b)
    decreases |a|
  {
    if a == [] {
      assert a + b == b;
    } else {
      assert (a + b)[1..] == a[1..] + b;
      SpecificAppend(a[1..], b);
    }
  }

  /**
   * A post as the pages see it. `tags` and `allCategories` hold category ids;
   * `subheader` and `body` are the two extra fields the service adds for the
   * article view.
   */
  datatype Post = Post(
    id: string,
    title: string,
    slug: string,
    category: Category,
    date: string,
    description: string,
    content: string,
    tags: seq<Category>,
    published: bool,
    allCategories: Option<seq<Category>>,
    subheader: string,
    body: string)
}
