/**
 * `getCategoryColor`, written out identically in src/components/Writing.tsx
 * and src/components/PostView.tsx: the dot colour of a category id.
 */
module Palette {
  import opened PostTypes

  /** The colour of anything that is not a known category id; Mixed shares it. */
  const Grey := "#757575"

  /** The colour each category is drawn in. */
  function Color(c: Category): string {
    match c
    case Technology => "#1976D2"
    case Finance => "#7B1FA2"
    case Personal => "#FF9800"
    case Mixed => Grey
  }

  /** `categoryMap`: category id to colour. */
  const CategoryMap: map<string, string> := map[
    "technology" := "#1976D2",
    "finance" := "#7B1FA2",
    "personal" := "#FF9800",
    "mixed" := Grey]

  /** Each key of the map is a category id, coloured as that category. */
  lemma CategoryMapKeys()
    ensures forall c :: Name(c) in CategoryMap && CategoryMap[Name(c)] == Color(c)
    ensures forall k :: k in CategoryMap ==> exists c :: k == Name(c)
  {
    assert "technology" == Name(Technology) && "finance" == Name(Finance);
    assert "personal" == Name(Personal) && "mixed" == Name(Mixed);
  }

  /** `categoryMap[category] || '#757575'` for a category id given as text. */
  function CategoryColor(category: string): (color: string)
    ensures forall c :: category == Name(c) ==> color == Color(c)
    ensures (forall c :: category != Name(c)) ==> color == Grey
  {
    CategoryMapKeys();
    if category in CategoryMap then CategoryMap[category] else Grey
  }

  /** Only Mixed among the categories is drawn in the fallback grey. */
  lemma OnlyMixedIsGrey(c: Category)
    ensures CategoryColor(Name(c)) == Grey <==> c == Mixed
  {
  }
}
