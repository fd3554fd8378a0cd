/**
 * The content-based recipe recommender of model.py: priority scores from
 * days until expiration, a sorted ingredient vocabulary, binary presence
 * vectors, cosine similarity between the selected inventory and each
 * recipe, an expiration term, the 0.7 / 0.3 blend, and two stable
 * descending sorts.
 *
 * Tables are sequences of records. Dates are replaced by the whole number
 * of days until expiration. The square root inside the cosine similarity is
 * a parameter `sqrt` (the floating-point routine is not modelled); scores are
 * exact reals. Line numbers in the comments below refer to model.py.
 */
module Recommender {
  import Text
  import opened Dict

  /** A row of the inventory table: an item and the whole days until its
      expiration date. */
  datatype InventoryItem = InventoryItem(item: string, daysLeft: int)

  /** An inventory row once its `priority_score` column is filled in. */
  datatype ScoredItem = ScoredItem(item: string, priority: int)

  /** A row of the recipe table: a name and its comma-joined ingredients. */
  datatype Recipe = Recipe(name: string, ingredients: string)

  /** An entry of a binary presence vector. */
  type Bit = b: int | 0 <= b <= 1

  // ---------------------------------------------------------------------
  // Priority score

  /** `calculate_priority_score`: 100 on or after the expiration day, then
      5 points less per day left, never below 0. */
  function PriorityScore(daysLeft: int): (p: int)
    ensures 0 <= p <= 100
    ensures p == 100 <==> daysLeft <= 0
    ensures p == 0 <==> daysLeft >= 20
    ensures 0 < daysLeft < 20 ==> p + 5 * daysLeft == 100
  {
    if daysLeft <= 0 then 100
    else if 100 - daysLeft * 5 > 0 then 100 - daysLeft * 5 else 0
  }

  /** An item expiring later never has a higher priority. */
  lemma PriorityMonotone(d1: int, d2: int)
    requires d1 <= d2
    ensures PriorityScore(d1) >= PriorityScore(d2)
  {
  }

  /** The inventory with its `priority_score` column. */
  function WithPriorities(inventory: seq<InventoryItem>): (scored: seq<ScoredItem>)
    ensures |scored| == |inventory|
  {
    if inventory == [] then []
    else
      var last := inventory[|inventory| - 1];
      WithPriorities(inventory[..|inventory| - 1]) + [ScoredItem(last.item, PriorityScore(last.daysLeft))]
  }

  /** Every priority in the scored inventory lies in [0, 100]. */
  lemma {:induction false} WithPrioritiesBounded(inventory: seq<InventoryItem>)
    ensures forall r :: r in WithPriorities(inventory) ==> 0 <= r.priority <= 100
  {
    if inventory != [] {
      WithPrioritiesBounded(inventory[..|inventory| - 1]);
    }
  }

  /** `inventory['priority_score'] = inventory['expiration_date'].apply(...)`. */
  method AssignPriorities(inventory: seq<InventoryItem>) returns (scored: seq<ScoredItem>)
    ensures scored == WithPriorities(inventory)
  {
    scored := [];
    for i := 0 to |inventory|
      invariant scored == WithPriorities(inventory[..i])
    {
      assert inventory[..i + 1][..i] == inventory[..i];
      scored := scored + [ScoredItem(inventory[i].item, PriorityScore(inventory[i].daysLeft))];
    }
    assert inventory[..|inventory|] == inventory;
  }

  /** `inventory[inventory['item'].isin(selection)]`: the rows the user
      selected, in table order. */
  function Selected(rows: seq<ScoredItem>, selection: seq<string>): (kept: seq<ScoredItem>)
    ensures forall r :: r in kept <==> r in rows && r.item in selection
  {
    if rows == [] then []
    else
      var last := rows[|rows| - 1];
      var init := Selected(rows[..|rows| - 1], selection);
      assert rows == rows[..|rows| - 1] + [last];
      if last.item in selection then init + [last] else init
  }

  /** The filtered inventory that the whole ranking works with. */
  function Filtered(selection: seq<string>, inventory: seq<InventoryItem>): seq<ScoredItem>
  {
    Selected(WithPriorities(inventory), selection)
  }

  /** `inventory['item'].tolist()`. */
  function Items(rows: seq<ScoredItem>): (items: seq<string>)
    ensures forall t :: t in items <==> exists r :: r in rows && r.item == t
  {
    if rows == [] then []
    else
      assert rows == rows[..|rows| - 1] + [rows[|rows| - 1]];
      Items(rows[..|rows| - 1]) + [rows[|rows| - 1].item]
  }

  // ---------------------------------------------------------------------
  // Vocabulary

  /** `recipe['ingredients'].split(',')`: tokens taken verbatim. */
  function Tokens(r: Recipe): seq<string>
  {
    Text.Split(r.ingredients, ',')
  }

  /** The tokens of all recipes, in table order, with repetitions. */
  function AllTokens(recipes: seq<Recipe>): seq<string>
  {
    if recipes == [] then []
    else AllTokens(recipes[..|recipes| - 1]) + Tokens(recipes[|recipes| - 1])
  }

  lemma {:induction false} AllTokensMembers(recipes: seq<Recipe>)
    ensures forall t :: t in AllTokens(recipes) <==> exists r :: r in recipes && t in Tokens(r)
  {
    if recipes != [] {
      var init, last := recipes[..|recipes| - 1], recipes[|recipes| - 1];
      AllTokensMembers(init);
      assert recipes == init + [last];
    }
  }

  /** `sorted(list(all_ingredients))`. */
  function Vocabulary(recipes: seq<Recipe>): seq<string>
  {
    Text.SortedDistinct(AllTokens(recipes))
  }

  /** The vocabulary is strictly ascending (so it has no duplicates) and holds
      exactly the tokens of the recipes. */
  lemma VocabularyExact(recipes: seq<Recipe>)
    ensures Text.Ascending(Vocabulary(recipes))
    ensures Text.Distinct(Vocabulary(recipes))
    ensures forall t :: t in Vocabulary(recipes) <==> exists r :: r in recipes && t in Tokens(r)
  {
    AllTokensMembers(recipes);
    Text.AscendingDistinct(Vocabulary(recipes));
  }

  /** The vocabulary depends only on which recipes there are, not on their
      order or repetition in the table. */
  lemma VocabularyOrderFree(a: seq<Recipe>, b: seq<Recipe>)
    requires forall r :: r in a <==> r in b
    ensures Vocabulary(a) == Vocabulary(b)
  {
    VocabularyExact(a);
    VocabularyExact(b);
    Text.AscendingUnique(Vocabulary(a), Vocabulary(b));
  }

  /** Lines 60-64: the set of all tokens grown recipe by recipe, then sorted. */
  method BuildVocabulary(recipes: seq<Recipe>) returns (vocab: seq<string>)
    ensures vocab == Vocabulary(recipes)
  {
    var all: set<string> := {};
    for i := 0 to |recipes|
      invariant forall t :: t in all <==> t in AllTokens(recipes[..i])
    {
      assert recipes[..i + 1][..i] == recipes[..i];
      all := all + set t | t in Tokens(recipes[i]);
    }
    assert recipes[..|recipes|] == recipes;
    vocab := Text.SortedList(all);
    Text.AscendingUnique(vocab, Vocabulary(recipes));
  }

  // ---------------------------------------------------------------------
  // Vectors

  /** `create_ingredient_vector`: entry i is 1 exactly when `vocab[i]` is
      one of the ingredients. */
  function IngredientVector(ingredients: seq<string>, vocab: seq<string>): (v: seq<Bit>)
    ensures |v| == |vocab|
    ensures forall i :: 0 <= i < |vocab| ==> (v[i] == 1 <==> vocab[i] in ingredients)
  {
    seq(|vocab|, i requires 0 <= i < |vocab| => if vocab[i] in ingredients then 1 else 0)
  }

  /** Ingredient lists with the same tokens, in any order and with any
      repetition, get the same vector. */
  lemma SameTokensSameVector(a: seq<string>, b: seq<string>, vocab: seq<string>)
    requires forall t :: t in a <==> t in b
    ensures IngredientVector(a, vocab) == IngredientVector(b, vocab)
  {
  }

  /** The inventory vector marks exactly the vocabulary entries that the user
      selected and that the inventory holds. */
  lemma InventoryVectorSelected(selection: seq<string>, inventory: seq<InventoryItem>, vocab: seq<string>, i: int)
    requires 0 <= i < |vocab|
    ensures IngredientVector(Items(Filtered(selection, inventory)), vocab)[i] == 1
        <==> vocab[i] in selection && exists r :: r in inventory && r.item == vocab[i]
  {
    FilteredItems(selection, inventory, vocab[i]);
  }

  /** An item is among the filtered rows exactly when it was selected and
      some inventory row holds it. */
  lemma FilteredItems(selection: seq<string>, inventory: seq<InventoryItem>, t: string)
    ensures t in Items(Filtered(selection, inventory)) <==> t in selection && exists r :: r in inventory && r.item == t
  {
    WithPrioritiesItems(inventory);
    if t in Items(Filtered(selection, inventory)) {
      var s :| s in Filtered(selection, inventory) && s.item == t;
      assert s in WithPriorities(inventory);
      assert t in Items(WithPriorities(inventory));
    }
    if t in selection && exists r :: r in inventory && r.item == t {
      var w := WithPriorities(inventory);
      assert t in Items(w);
      var s :| s in w && s.item == t;
      assert s in Selected(w, selection);
      assert t in Items(Selected(w, selection));
    }
  }

  lemma {:induction false} WithPrioritiesItems(inventory: seq<InventoryItem>)
    ensures forall t :: t in Items(WithPriorities(inventory)) <==> exists r :: r in inventory && r.item == t
  {
    if inventory != [] {
      var init, last := inventory[..|inventory| - 1], inventory[|inventory| - 1];
      WithPrioritiesItems(init);
      assert inventory == init + [last];
      var w := WithPriorities(inventory);
      assert w == WithPriorities(init) + [ScoredItem(last.item, PriorityScore(last.daysLeft))];
    }
  }

  /** The recipe names of the table, in order. */
  function Names(recipes: seq<Recipe>): (names: seq<string>)
    ensures |names| == |recipes|
  {
    if recipes == [] then []
    else Names(recipes[..|recipes| - 1]) + [recipes[|recipes| - 1].name]
  }

  /** The first occurrence of each string, in order. */
  function FirstOccurrences(xs: seq<string>): (firsts: seq<string>)
    ensures forall t :: t in firsts <==> t in xs
  {
    if xs == [] then []
    else
      var init, last := xs[..|xs| - 1], xs[|xs| - 1];
      assert xs == init + [last];
      if last in init then FirstOccurrences(init) else FirstOccurrences(init) + [last]
  }

  /** True when some recipe of the table has this name. */
  predicate HasRecipe(recipes: seq<Recipe>, name: string)
  {
    exists r :: r in recipes && r.name == name
  }

  /** Lines 67-69: `recipe_vectors[recipe['name']] = vector`, recipe by recipe. */
  function RecipeVectors(recipes: seq<Recipe>, vocab: seq<string>): seq<Entry<seq<Bit>>>
  {
    if recipes == [] then []
    else
      var last := recipes[|recipes| - 1];
      Put(RecipeVectors(recipes[..|recipes| - 1], vocab), last.name, IngredientVector(Tokens(last), vocab))
  }

  /** recipe_vectors holds each recipe name once, in order of first
      appearance in the table (a Python dict keeps a key where it was first
      inserted). */
  lemma {:induction false} RecipeVectorsKeys(recipes: seq<Recipe>, vocab: seq<string>)
    ensures Keys(RecipeVectors(recipes, vocab)) == FirstOccurrences(Names(recipes))
    ensures DistinctKeys(RecipeVectors(recipes, vocab))
  {
    if recipes != [] {
      var init, last := recipes[..|recipes| - 1], recipes[|recipes| - 1];
      RecipeVectorsKeys(init, vocab);
      var d := RecipeVectors(init, vocab);
      PutKeys(d, last.name, IngredientVector(Tokens(last), vocab));
      PutDistinct(d, last.name, IngredientVector(Tokens(last), vocab));
      var names := Names(recipes);
      assert names[..|names| - 1] == Names(init);
    }
  }

  /** Each entry of recipe_vectors is the vector of a recipe with that name
      (RecipeVectorsLast says which: the last one). */
  lemma {:induction false} RecipeVectorsValues(recipes: seq<Recipe>, vocab: seq<string>)
    ensures forall e :: e in RecipeVectors(recipes, vocab) ==>
      exists r :: r in recipes && r.name == e.key && e.value == IngredientVector(Tokens(r), vocab)
  {
    if recipes != [] {
      var init, last := recipes[..|recipes| - 1], recipes[|recipes| - 1];
      RecipeVectorsValues(init, vocab);
      PutEntries(RecipeVectors(init, vocab), last.name, IngredientVector(Tokens(last), vocab));
      assert recipes == init + [last];
    }
  }

  /** The last recipe of the table with this name. */
  function LastRecipe(recipes: seq<Recipe>, name: string): (r: Recipe)
    requires HasRecipe(recipes, name)
    ensures r.name == name
    ensures exists i :: 0 <= i < |recipes| && recipes[i] == r && forall j :: i < j < |recipes| ==> recipes[j].name != name
  {
    var init, last := recipes[..|recipes| - 1], recipes[|recipes| - 1];
    if last.name == name then last
    else
      HasRecipeInit(recipes, name);
      var r := LastRecipe(init, name);
      var i :| 0 <= i < |init| && init[i] == r && forall j :: i < j < |init| ==> init[j].name != name;
      assert recipes[i] == r;
      r
  }

  /** Looking a name up in recipe_vectors gives the vector of the LAST
      recipe with that name, since every later row with the name overwrites
      the earlier value; a name no recipe has is absent. */
  lemma {:induction false} RecipeVectorsLast(recipes: seq<Recipe>, vocab: seq<string>, k: string)
    ensures HasRecipe(recipes, k) ==>
      Find(RecipeVectors(recipes, vocab), k) == Some(IngredientVector(Tokens(LastRecipe(recipes, k)), vocab))
    ensures !HasRecipe(recipes, k) ==> Find(RecipeVectors(recipes, vocab), k) == None
  {
    if !HasRecipe(recipes, k) {
      RecipeVectorsNames(recipes, vocab);
    } else {
      var init, last := recipes[..|recipes| - 1], recipes[|recipes| - 1];
      PutFind(RecipeVectors(init, vocab), last.name, IngredientVector(Tokens(last), vocab));
      if last.name != k {
        HasRecipeInit(recipes, k);
        RecipeVectorsLast(init, vocab, k);
      }
    }
  }

  /** A name that the last recipe does not have belongs to an earlier one. */
  lemma HasRecipeInit(recipes: seq<Recipe>, name: string)
    requires HasRecipe(recipes, name) && recipes[|recipes| - 1].name != name
    ensures HasRecipe(recipes[..|recipes| - 1], name)
  {
    var r :| r in recipes && r.name == name;
    assert recipes == recipes[..|recipes| - 1] + [recipes[|recipes| - 1]];
    assert r in recipes[..|recipes| - 1];
  }

  /** Every name of recipe_vectors is a recipe name. */
  lemma RecipeVectorsNames(recipes: seq<Recipe>, vocab: seq<string>)
    ensures forall k :: k in Keys(RecipeVectors(recipes, vocab)) <==> HasRecipe(recipes, k)
  {
    RecipeVectorsKeys(recipes, vocab);
    NamesMembers(recipes);
  }

  lemma {:induction false} NamesMembers(recipes: seq<Recipe>)
    ensures forall k :: k in Names(recipes) <==> HasRecipe(recipes, k)
  {
    if recipes != [] {
      var init, last := recipes[..|recipes| - 1], recipes[|recipes| - 1];
      NamesMembers(init);
      assert recipes == init + [last];
    }
  }

  lemma RecipeVectorsLengths(recipes: seq<Recipe>, vocab: seq<string>)
    ensures forall e :: e in RecipeVectors(recipes, vocab) ==> |e.value| == |vocab|
  {
    RecipeVectorsValues(recipes, vocab);
  }

  /** Lines 67-69 as a loop. */
  method BuildRecipeVectors(recipes: seq<Recipe>, vocab: seq<string>) returns (vectors: seq<Entry<seq<Bit>>>)
    ensures vectors == RecipeVectors(recipes, vocab)
  {
    vectors := [];
    for i := 0 to |recipes|
      invariant vectors == RecipeVectors(recipes[..i], vocab)
    {
      assert recipes[..i + 1][..i] == recipes[..i];
      vectors := Put(vectors, recipes[i].name, IngredientVector(Tokens(recipes[i]), vocab));
    }
    assert recipes[..|recipes|] == recipes;
  }

  // ---------------------------------------------------------------------
  // Cosine similarity

  /** The dot product. On presence vectors it counts the shared entries, and
      the dot product of a vector with itself counts its ones. */
  function Dot(u: seq<Bit>, v: seq<Bit>): nat
    requires |u| == |v|
  {
    if u == [] then 0 else u[0] * v[0] + Dot(u[1..], v[1..])
  }

  /** What the square root routine must give for the cosine to be defined:
      a positive root of a positive number. */
  ghost predicate RootPositive(sqrt: real -> real)
  {
    forall x :: 0.0 < x ==> 0.0 < sqrt(x)
  }

  /** sqrt is the exact square root on the non-negative reals (which makes
      it RootPositive too; that conjunct is spelled out for the callers of
      Cosine). */
  ghost predicate IsSqrt(sqrt: real -> real)
  {
    RootPositive(sqrt) &&
    forall x :: 0.0 <= x ==> 0.0 <= sqrt(x) && sqrt(x) * sqrt(x) == x
  }

  /** `cosine_similarity([u], [v])[0][0]`: each vector is scaled to unit
      length, and a vector of length zero stays zero. */
  function Cosine(u: seq<Bit>, v: seq<Bit>, sqrt: real -> real): (sim: real)
    requires |u| == |v|
    requires RootPositive(sqrt)
    ensures Dot(u, u) == 0 || Dot(v, v) == 0 || Dot(u, v) == 0 ==> sim == 0.0
    ensures Dot(u, u) > 0 && Dot(v, v) > 0 ==>
      sim * (sqrt(Dot(u, u) as real) * sqrt(Dot(v, v) as real)) == Dot(u, v) as real
    ensures 0.0 <= sim
  {
    var nu, nv := Dot(u, u), Dot(v, v);
    if nu == 0 || nv == 0 then 0.0
    else
      var norms := sqrt(nu as real) * sqrt(nv as real);
      assert 0.0 < norms;
      Dot(u, v) as real / norms
  }

  lemma {:induction false} DotSymmetric(u: seq<Bit>, v: seq<Bit>)
    requires |u| == |v|
    ensures Dot(u, v) == Dot(v, u)
  {
    if u != [] {
      DotSymmetric(u[1..], v[1..]);
    }
  }

  /** Cosine similarity is symmetric. */
  lemma CosineSymmetric(u: seq<Bit>, v: seq<Bit>, sqrt: real -> real)
    requires |u| == |v|
    requires RootPositive(sqrt)
    ensures Cosine(u, v, sqrt) == Cosine(v, u, sqrt)
  {
    DotSymmetric(u, v);
  }

  lemma {:induction false} DotBelowNorms(u: seq<Bit>, v: seq<Bit>)
    requires |u| == |v|
    ensures Dot(u, v) <= Dot(u, u) && Dot(u, v) <= Dot(v, v)
  {
    if u != [] {
      DotBelowNorms(u[1..], v[1..]);
    }
  }

  /** With an exact square root, the similarity lies in [0, 1]. */
  lemma CosineBounded(u: seq<Bit>, v: seq<Bit>, sqrt: real -> real)
    requires |u| == |v|
    requires IsSqrt(sqrt)
    ensures 0.0 <= Cosine(u, v, sqrt) <= 1.0
  {
    var d, a, b := Dot(u, v), Dot(u, u), Dot(v, v);
    if a != 0 && b != 0 {
      DotBelowNorms(u, v);
      CosineBoundCounts(Cosine(u, v, sqrt), d, a, b, sqrt);
    }
  }

  /** CosineBounded on the three counts alone. */
  lemma CosineBoundCounts(c: real, d: nat, a: nat, b: nat, sqrt: real -> real)
    requires IsSqrt(sqrt)
    requires 0 < a && 0 < b && d <= a && d <= b
    requires c * (sqrt(a as real) * sqrt(b as real)) == d as real
    ensures c <= 1.0
  {
    var ra, rb := sqrt(a as real), sqrt(b as real);
    assert ra * ra == a as real && 0.0 <= ra;
    assert rb * rb == b as real && 0.0 <= rb;
    CosineBoundReal(c, d as real, a as real, b as real, ra, rb);
  }

  lemma SquareBelowProduct(d: real, a: real, b: real)
    requires 0.0 <= d <= a && d <= b
    ensures d * d <= a * b
  {
  }

  lemma RootOfProductBound(d: real, a: real, b: real, ra: real, rb: real)
    requires 0.0 <= d && 0.0 <= ra && 0.0 <= rb
    requires ra * ra == a && rb * rb == b && d * d <= a * b
    ensures d <= ra * rb
  {
    var p := ra * rb;
    assert p * p == a * b by { assert p * p == (ra * ra) * (rb * rb); }
    if d > p {
      SquareStrict(p, d);
    }
  }

  lemma SquareStrict(p: real, d: real)
    requires 0.0 <= p < d
    ensures p * p < d * d
  {
    var pd, pp, dd := p * d, p * p, d * d;
    assert pd < dd by { assert dd - pd == (d - p) * d; }
    assert pp <= pd by { assert pd - pp == (d - p) * p; }
  }

  /** The arithmetic of CosineBounded: with d <= a, d <= b and exact roots,
      d <= sqrt(a) * sqrt(b), so the ratio is at most 1. */
  lemma CosineBoundReal(c: real, d: real, a: real, b: real, ra: real, rb: real)
    requires 0.0 <= d <= a && d <= b && 0.0 < a && 0.0 < b
    requires 0.0 <= ra && 0.0 <= rb && ra * ra == a && rb * rb == b
    requires c * (ra * rb) == d
    ensures c <= 1.0
  {
    SquareBelowProduct(d, a, b);
    RootOfProductBound(d, a, b, ra, rb);
    assert ra != 0.0 && rb != 0.0;
    var p := ra * rb;
    assert 0.0 < p;
    RatioAtMostOne(c, p, d);
  }

  lemma RatioAtMostOne(c: real, p: real, d: real)
    requires c * p == d && 0.0 <= d <= p && 0.0 < p
    ensures c <= 1.0
  {
  }

  /** With an exact square root, a non-zero vector has similarity 1 with
      itself. */
  lemma CosineSelf(u: seq<Bit>, sqrt: real -> real)
    requires IsSqrt(sqrt)
    requires Dot(u, u) > 0
    ensures Cosine(u, u, sqrt) == 1.0
  {
    var a, c := Dot(u, u) as real, Cosine(u, u, sqrt);
    assert sqrt(a) * sqrt(a) == a;
    assert c * a == a;
    assert (c - 1.0) * a == 0.0;
  }

  /** The tokens of the vocabulary present in both ingredient lists. */
  function Shared(vocab: seq<string>, a: seq<string>, b: seq<string>): set<string>
  {
    set t | t in vocab && t in a && t in b
  }

  /** On presence vectors over a duplicate-free vocabulary, the dot product
      is the number of shared vocabulary entries (and a squared norm is the
      size of a support). */
  lemma {:induction false} DotCountsShared(a: seq<string>, b: seq<string>, vocab: seq<string>)
    requires Text.Distinct(vocab)
    ensures Dot(IngredientVector(a, vocab), IngredientVector(b, vocab)) == |Shared(vocab, a, b)|
  {
    if vocab != [] {
      var t, rest := vocab[0], vocab[1..];
      DistinctTail(vocab);
      DotCountsShared(a, b, rest);
      VectorTail(a, vocab);
      VectorTail(b, vocab);
      SharedHead(vocab, a, b);
    }
  }

  lemma DistinctTail(s: seq<string>)
    requires Text.Distinct(s) && s != []
    ensures Text.Distinct(s[1..]) && s[0] !in s[1..]
  {
  }

  lemma VectorTail(a: seq<string>, vocab: seq<string>)
    requires vocab != []
    ensures IngredientVector(a, vocab)[1..] == IngredientVector(a, vocab[1..])
    ensures IngredientVector(a, vocab)[0] == if vocab[0] in a then 1 else 0
  {
  }

  lemma SharedHead(vocab: seq<string>, a: seq<string>, b: seq<string>)
    requires vocab != [] && vocab[0] !in vocab[1..]
    ensures |Shared(vocab, a, b)| == (if vocab[0] in a && vocab[0] in b then 1 else 0) + |Shared(vocab[1..], a, b)|
  {
    var t := vocab[0];
    assert vocab == [t] + vocab[1..];
    assert t !in Shared(vocab[1..], a, b);
    if t in a && t in b {
      assert Shared(vocab, a, b) == {t} + Shared(vocab[1..], a, b);
    } else {
      assert Shared(vocab, a, b) == Shared(vocab[1..], a, b);
    }
  }

  /** Similarity is 0 when the selected inventory and the recipe share no
      vocabulary token, in particular when either has none. */
  lemma CosineDisjoint(a: seq<string>, b: seq<string>, vocab: seq<string>, sqrt: real -> real)
    requires Text.Distinct(vocab)
    requires RootPositive(sqrt)
    requires forall t :: t in vocab && t in a ==> t !in b
    ensures Cosine(IngredientVector(a, vocab), IngredientVector(b, vocab), sqrt) == 0.0
  {
    DotCountsShared(a, b, vocab);
    assert Shared(vocab, a, b) == {};
  }

  /** Lines 75-78: the similarity of each recipe vector to the inventory
      vector, keyed by recipe name. */
  function SimilarityScores(vectors: seq<Entry<seq<Bit>>>, inv: seq<Bit>, sqrt: real -> real): (scores: seq<Entry<real>>)
    requires RootPositive(sqrt)
    requires forall e :: e in vectors ==> |e.value| == |inv|
    ensures Keys(scores) == Keys(vectors)
    ensures forall i :: 0 <= i < |scores| ==> scores[i].value == Cosine(inv, vectors[i].value, sqrt)
  {
    if vectors == [] then []
    else
      var init, last := vectors[..|vectors| - 1], vectors[|vectors| - 1];
      assert vectors == init + [last];
      var scores := SimilarityScores(init, inv, sqrt) + [Entry(last.key, Cosine(inv, last.value, sqrt))];
      KeysAppend(init, last);
      KeysAppend(SimilarityScores(init, inv, sqrt), scores[|scores| - 1]);
      scores
  }

  lemma KeysAppend<V>(d: seq<Entry<V>>, e: Entry<V>)
    ensures Keys(d + [e]) == Keys(d) + [e.key]
  {
    if d != [] {
      assert (d + [e])[1..] == d[1..] + [e];
      KeysAppend(d[1..], e);
    }
  }

  /** recipe_scores grows by one entry per recipe vector, under a name it
      does not hold yet. */
  lemma SimilarityScoresStep(vectors: seq<Entry<seq<Bit>>>, i: nat, inv: seq<Bit>, sqrt: real -> real)
    requires i < |vectors|
    requires RootPositive(sqrt)
    requires DistinctKeys(vectors)
    requires forall e :: e in vectors ==> |e.value| == |inv|
    ensures vectors[i].key !in Keys(SimilarityScores(vectors[..i], inv, sqrt))
    ensures SimilarityScores(vectors[..i + 1], inv, sqrt) ==
      SimilarityScores(vectors[..i], inv, sqrt) + [Entry(vectors[i].key, Cosine(inv, vectors[i].value, sqrt))]
  {
    assert vectors[..i + 1][..i] == vectors[..i];
    KeysPrefix(vectors, i);
    KeysAt(vectors, i);
  }

  /** Lines 75-78 as a loop. */
  method ScoreSimilarities(vectors: seq<Entry<seq<Bit>>>, inv: seq<Bit>, sqrt: real -> real) returns (scores: seq<Entry<real>>)
    requires RootPositive(sqrt)
    requires DistinctKeys(vectors)
    requires forall e :: e in vectors ==> |e.value| == |inv|
    ensures scores == SimilarityScores(vectors, inv, sqrt)
  {
    scores := [];
    for i := 0 to |vectors|
      invariant scores == SimilarityScores(vectors[..i], inv, sqrt)
    {
      SimilarityScoresStep(vectors, i, inv, sqrt);
      PutNew(scores, vectors[i].key, Cosine(inv, vectors[i].value, sqrt));
      scores := Put(scores, vectors[i].key, Cosine(inv, vectors[i].value, sqrt));
    }
    assert vectors[..|vectors|] == vectors;
  }

  // ---------------------------------------------------------------------
  // Expiration term

  /** `inventory[inventory['item'] == t].iloc[0]['priority_score']`, guarded
      by `t in inventory['item'].values`: the priority of the first row for
      t, if there is one. */
  function FirstMatch(rows: seq<ScoredItem>, t: string): Option<int>
  {
    if rows == [] then None
    else
      var init, last := rows[..|rows| - 1], rows[|rows| - 1];
      var m := FirstMatch(init, t);
      if m.Some? then m
      else if last.item == t then Some(last.priority)
      else None
  }

  /** There is no match exactly when no row has the item; a match is the
      priority of the first row with the item. */
  lemma {:induction false} FirstMatchFirst(rows: seq<ScoredItem>, t: string)
    ensures FirstMatch(rows, t).None? <==> forall i :: 0 <= i < |rows| ==> rows[i].item != t
    ensures FirstMatch(rows, t).Some? ==>
      exists i :: 0 <= i < |rows| && rows[i].item == t && rows[i].priority == FirstMatch(rows, t).value &&
                  forall j :: 0 <= j < i ==> rows[j].item != t
  {
    if rows != [] {
      var init, last := rows[..|rows| - 1], rows[|rows| - 1];
      FirstMatchFirst(init, t);
      if FirstMatch(init, t).Some? {
        var i :| 0 <= i < |init| && init[i].item == t && init[i].priority == FirstMatch(init, t).value &&
                 forall j :: 0 <= j < i ==> init[j].item != t;
        assert rows[i] == init[i];
      } else {
        forall i | 0 <= i < |rows| - 1 ensures rows[i].item != t {
          assert rows[i] == init[i];
        }
      }
    }
  }

  /** What one ingredient token adds to `expiring_ingredient_score`. */
  function Contribution(rows: seq<ScoredItem>, t: string): int
  {
    match FirstMatch(rows, t)
    case None => 0
    case Some(p) => p
  }

  /** Lines 87-91: the sum, over the recipe's tokens in order, of the
      priority of each token's first matching row, a token without a row
      adding nothing. */
  function Expiration(tokens: seq<string>, rows: seq<ScoredItem>): int
  {
    if tokens == [] then 0
    else Expiration(tokens[..|tokens| - 1], rows) + Contribution(rows, tokens[|tokens| - 1])
  }

  /** The sum over a concatenation is the sum of the sums; in particular a
      token listed twice counts twice. */
  lemma {:induction false} ExpirationAppend(a: seq<string>, b: seq<string>, rows: seq<ScoredItem>)
    ensures Expiration(a + b, rows) == Expiration(a, rows) + Expiration(b, rows)
  {
    if b != [] {
      var init := b[..|b| - 1];
      ExpirationAppend(a, init, rows);
      assert (a + b)[..|a + b| - 1] == a + init;
      assert (a + b)[|a + b| - 1] == b[|b| - 1];
    } else {
      assert a + b == a;
    }
  }

  lemma ExpirationTwice(t: string, rows: seq<ScoredItem>)
    ensures Expiration([t, t], rows) == 2 * Expiration([t], rows)
  {
  }

  /** With priorities in [0, 100], the term lies in [0, 100 * |tokens|]. */
  lemma {:induction false} ExpirationBounds(tokens: seq<string>, rows: seq<ScoredItem>)
    requires forall r :: r in rows ==> 0 <= r.priority <= 100
    ensures 0 <= Expiration(tokens, rows) <= 100 * |tokens|
  {
    if tokens != [] {
      ExpirationBounds(tokens[..|tokens| - 1], rows);
      var m := FirstMatch(rows, tokens[|tokens| - 1]);
      FirstMatchFirst(rows, tokens[|tokens| - 1]);
      if m.Some? {
        var i :| 0 <= i < |rows| && rows[i].item == tokens[|tokens| - 1] && rows[i].priority == m.value;
        assert rows[i] in rows;
      }
    }
  }

  /** Among the selected rows, the first row for t is the first row for t of
      the whole table when t was selected, and there is none otherwise. */
  lemma {:induction false} FirstMatchSelected(rows: seq<ScoredItem>, selection: seq<string>, t: string)
    ensures FirstMatch(Selected(rows, selection), t) == if t in selection then FirstMatch(rows, t) else None
  {
    if rows != [] {
      var init, last := rows[..|rows| - 1], rows[|rows| - 1];
      FirstMatchSelected(init, selection, t);
      var kept := Selected(init, selection);
      var sel := Selected(rows, selection);
      if last.item in selection {
        assert sel == kept + [last];
        assert sel[..|sel| - 1] == kept;
      } else {
        assert sel == kept;
      }
    }
  }

  /** The tokens of a list that were selected, in order. */
  function Among(tokens: seq<string>, selection: seq<string>): (kept: seq<string>)
    ensures forall t :: t in kept <==> t in tokens && t in selection
  {
    if tokens == [] then []
    else
      var init, last := tokens[..|tokens| - 1], tokens[|tokens| - 1];
      assert tokens == init + [last];
      if last in selection then Among(init, selection) + [last] else Among(init, selection)
  }

  /** Only selected inventory rows contribute to the expiration term: it is
      the term of the selected tokens over the whole scored inventory. */
  lemma {:induction false} ExpirationSelected(tokens: seq<string>, rows: seq<ScoredItem>, selection: seq<string>)
    ensures Expiration(tokens, Selected(rows, selection)) == Expiration(Among(tokens, selection), rows)
  {
    if tokens != [] {
      var init, last := tokens[..|tokens| - 1], tokens[|tokens| - 1];
      ExpirationSelected(init, rows, selection);
      FirstMatchSelected(rows, selection, last);
      var a := Among(init, selection);
      if last in selection {
        assert (a + [last])[..|a + [last]| - 1] == a;
      }
    }
  }

  /** `recipes[recipes['name'] == name]['ingredients'].iloc[0]`: the first
      recipe of the table with this name. */
  function FirstRecipe(recipes: seq<Recipe>, name: string): (r: Recipe)
    requires HasRecipe(recipes, name)
    ensures r.name == name
    ensures exists i :: 0 <= i < |recipes| && recipes[i] == r && forall j :: 0 <= j < i ==> recipes[j].name != name
  {
    if recipes[0].name == name then recipes[0]
    else
      assert HasRecipe(recipes[1..], name) by {
        var r :| r in recipes && r.name == name;
        assert r in recipes[1..];
      }
      var r := FirstRecipe(recipes[1..], name);
      var i :| 0 <= i < |recipes[1..]| && recipes[1..][i] == r && forall j :: 0 <= j < i ==> recipes[1..][j].name != name;
      assert recipes[i + 1] == r;
      r
  }

  /** The expiration term of the recipe with this name (line 86 reads the
      ingredients of the first such recipe). */
  function RecipeExpiration(recipes: seq<Recipe>, name: string, rows: seq<ScoredItem>): int
    requires HasRecipe(recipes, name)
  {
    Expiration(Tokens(FirstRecipe(recipes, name)), rows)
  }

  // ---------------------------------------------------------------------
  // Blend and ranking

  /** Line 94. */
  function Blend(sim: real, expiration: int): real
  {
    0.7 * sim + 0.3 * expiration as real
  }

  /** The blended score grows with either term. */
  lemma BlendMonotone(s1: real, e1: int, s2: real, e2: int)
    requires s1 <= s2 && e1 <= e2
    ensures Blend(s1, e1) <= Blend(s2, e2)
  {
  }

  /** Lines 84-95: the final score of each ranked recipe, in the order of
      the similarity ranking. */
  function FinalScores(ranking: seq<Entry<real>>, recipes: seq<Recipe>, rows: seq<ScoredItem>): (scores: seq<Entry<real>>)
    requires forall e :: e in ranking ==> HasRecipe(recipes, e.key)
    ensures Keys(scores) == Keys(ranking)
    ensures forall i :: 0 <= i < |scores| ==>
      scores[i].value == Blend(ranking[i].value, RecipeExpiration(recipes, ranking[i].key, rows))
  {
    if ranking == [] then []
    else
      var init, last := ranking[..|ranking| - 1], ranking[|ranking| - 1];
      assert ranking == init + [last];
      var scores := FinalScores(init, recipes, rows) + [Entry(last.key, Blend(last.value, RecipeExpiration(recipes, last.key, rows)))];
      KeysAppend(init, last);
      KeysAppend(FinalScores(init, recipes, rows), scores[|scores| - 1]);
      scores
  }

  /** final_scores grows by one entry per ranked recipe, under a name it
      does not hold yet. */
  lemma FinalScoresStep(ranking: seq<Entry<real>>, i: nat, recipes: seq<Recipe>, rows: seq<ScoredItem>)
    requires i < |ranking|
    requires forall e :: e in ranking ==> HasRecipe(recipes, e.key)
    requires DistinctKeys(ranking)
    ensures ranking[i].key !in Keys(FinalScores(ranking[..i], recipes, rows))
    ensures FinalScores(ranking[..i + 1], recipes, rows) ==
      FinalScores(ranking[..i], recipes, rows) +
      [Entry(ranking[i].key, Blend(ranking[i].value, RecipeExpiration(recipes, ranking[i].key, rows)))]
  {
    assert ranking[..i + 1][..i] == ranking[..i];
    KeysPrefix(ranking, i);
    KeysAt(ranking, i);
    assert ranking[i] in ranking;
  }

  /** Lines 87-91 of model.py, as a loop. */
  method ExpiringIngredientScore(tokens: seq<string>, rows: seq<ScoredItem>) returns (score: int)
    ensures score == Expiration(tokens, rows)
  {
    score := 0;
    for j := 0 to |tokens|
      invariant score == Expiration(tokens[..j], rows)
    {
      assert tokens[..j + 1][..j] == tokens[..j];
      var m := FirstMatch(rows, tokens[j]);
      if m.Some? {
        score := score + m.value;
      }
    }
    assert tokens[..|tokens|] == tokens;
  }

  /** Lines 84-95 of model.py, as a nested loop. */
  method BlendScores(ranking: seq<Entry<real>>, recipes: seq<Recipe>, rows: seq<ScoredItem>) returns (scores: seq<Entry<real>>)
    requires forall e :: e in ranking ==> HasRecipe(recipes, e.key)
    requires DistinctKeys(ranking)
    ensures scores == FinalScores(ranking, recipes, rows)
  {
    scores := [];
    for i := 0 to |ranking|
      invariant scores == FinalScores(ranking[..i], recipes, rows)
    {
      var name := ranking[i].key;
      assert ranking[i] in ranking;
      var score := ExpiringIngredientScore(Tokens(FirstRecipe(recipes, name)), rows);
      var final := Blend(ranking[i].value, score);
      FinalScoresStep(ranking, i, recipes, rows);
      PutNew(scores, name, final);
      scores := Put(scores, name, final);
    }
    assert ranking[..|ranking|] == ranking;
  }

  /** recipe_scores: the similarity of every recipe name in recipe_vectors
      to the selected inventory, in dict order. */
  function RecipeScores(recipes: seq<Recipe>, rows: seq<ScoredItem>, sqrt: real -> real): seq<Entry<real>>
    requires RootPositive(sqrt)
  {
    var vocab := Vocabulary(recipes);
    RecipeVectorsLengths(recipes, vocab);
    SimilarityScores(RecipeVectors(recipes, vocab), IngredientVector(Items(rows), vocab), sqrt)
  }

  /** Line 81: recipe_scores sorted descending by similarity, stably. */
  function SimilarityRanking(recipes: seq<Recipe>, rows: seq<ScoredItem>, sqrt: real -> real): seq<Entry<real>>
    requires RootPositive(sqrt)
  {
    SortDesc(RecipeScores(recipes, rows, sqrt))
  }

  /** The similarity ranking lists every recipe name once and nothing else. */
  lemma RankingNames(recipes: seq<Recipe>, rows: seq<ScoredItem>, sqrt: real -> real)
    requires RootPositive(sqrt)
    ensures DistinctKeys(SimilarityRanking(recipes, rows, sqrt))
    ensures forall k :: k in Keys(SimilarityRanking(recipes, rows, sqrt)) <==> HasRecipe(recipes, k)
    ensures forall e :: e in SimilarityRanking(recipes, rows, sqrt) ==> HasRecipe(recipes, e.key)
  {
    var vocab := Vocabulary(recipes);
    RecipeVectorsLengths(recipes, vocab);
    RecipeVectorsKeys(recipes, vocab);
    RecipeVectorsNames(recipes, vocab);
    SortDescKeys(RecipeScores(recipes, rows, sqrt));
    EntryKeys(SimilarityRanking(recipes, rows, sqrt));
  }

  /** Each similarity in the ranking is the cosine similarity between the
      selected inventory's vector and the vector of a recipe of that name:
      the last recipe of the table with that name. */
  lemma RankingSimilarity(recipes: seq<Recipe>, rows: seq<ScoredItem>, sqrt: real -> real)
    requires RootPositive(sqrt)
    ensures forall e :: e in SimilarityRanking(recipes, rows, sqrt) ==>
      exists r :: r in recipes && r.name == e.key &&
                  e.value == Cosine(IngredientVector(Items(rows), Vocabulary(recipes)),
                                    IngredientVector(Tokens(r), Vocabulary(recipes)), sqrt)
    ensures forall e :: e in SimilarityRanking(recipes, rows, sqrt) ==>
      HasRecipe(recipes, e.key) &&
      e.value == Cosine(IngredientVector(Items(rows), Vocabulary(recipes)),
                        IngredientVector(Tokens(LastRecipe(recipes, e.key)), Vocabulary(recipes)), sqrt)
  {
    var vocab := Vocabulary(recipes);
    var inv := IngredientVector(Items(rows), vocab);
    var vectors := RecipeVectors(recipes, vocab);
    RecipeVectorsLengths(recipes, vocab);
    RecipeVectorsValues(recipes, vocab);
    RecipeVectorsKeys(recipes, vocab);
    RecipeVectorsNames(recipes, vocab);
    var scores := RecipeScores(recipes, rows, sqrt);
    SortDescPermutes(scores);
    forall e | e in SortDesc(scores)
      ensures exists r :: r in recipes && r.name == e.key &&
                          e.value == Cosine(inv, IngredientVector(Tokens(r), vocab), sqrt)
      ensures HasRecipe(recipes, e.key) &&
              e.value == Cosine(inv, IngredientVector(Tokens(LastRecipe(recipes, e.key)), vocab), sqrt)
    {
      assert e in multiset(scores);
      var i :| 0 <= i < |scores| && scores[i] == e;
      KeysAt(scores, i);
      KeysAt(vectors, i);
      assert vectors[i] in vectors;
      assert e.key in Keys(vectors);
      FindAt(vectors, i);
      RecipeVectorsLast(recipes, vocab, e.key);
    }
  }

  /** The similarity ranking is stable: recipes with equal similarity keep
      the order of recipe_vectors, the order in which their names first
      appear in the recipe table. */
  lemma RankingStable(recipes: seq<Recipe>, rows: seq<ScoredItem>, sqrt: real -> real, t: real)
    requires RootPositive(sqrt)
    ensures Descending(SimilarityRanking(recipes, rows, sqrt))
    ensures Keys(RecipeScores(recipes, rows, sqrt)) == FirstOccurrences(Names(recipes))
    ensures WithValue(SimilarityRanking(recipes, rows, sqrt), t) == WithValue(RecipeScores(recipes, rows, sqrt), t)
  {
    var vocab := Vocabulary(recipes);
    RecipeVectorsLengths(recipes, vocab);
    RecipeVectorsKeys(recipes, vocab);
    var scores := RecipeScores(recipes, rows, sqrt);
    SortDescStable(scores, t);
    SortDescDescending(scores);
  }

  /** final_scores: the blended score of each recipe, in the order of the
      similarity ranking. */
  function FinalRanking(recipes: seq<Recipe>, rows: seq<ScoredItem>, sqrt: real -> real): seq<Entry<real>>
    requires RootPositive(sqrt)
  {
    RankingNames(recipes, rows, sqrt);
    FinalScores(SimilarityRanking(recipes, rows, sqrt), recipes, rows)
  }

  /** `find_best_matches`: final_scores sorted descending and stably
      (line 98). */
  function BestMatches(selection: seq<string>, inventory: seq<InventoryItem>, recipes: seq<Recipe>, sqrt: real -> real): seq<Entry<real>>
    requires RootPositive(sqrt)
  {
    SortDesc(FinalRanking(recipes, Filtered(selection, inventory), sqrt))
  }

  /** The final ranking lists each recipe name of the table exactly once. */
  lemma BestMatchesNames(selection: seq<string>, inventory: seq<InventoryItem>, recipes: seq<Recipe>, sqrt: real -> real)
    requires RootPositive(sqrt)
    ensures DistinctKeys(BestMatches(selection, inventory, recipes, sqrt))
    ensures forall k :: k in Keys(BestMatches(selection, inventory, recipes, sqrt)) <==> HasRecipe(recipes, k)
  {
    var rows := Filtered(selection, inventory);
    RankingNames(recipes, rows, sqrt);
    SortDescKeys(FinalRanking(recipes, rows, sqrt));
  }

  /** The final ranking is sorted by final score, largest first, is a
      permutation of final_scores, and recipes with equal final scores keep
      their order in the similarity ranking. */
  lemma BestMatchesOrder(selection: seq<string>, inventory: seq<InventoryItem>, recipes: seq<Recipe>, sqrt: real -> real, t: real)
    requires RootPositive(sqrt)
    ensures Descending(BestMatches(selection, inventory, recipes, sqrt))
    ensures multiset(BestMatches(selection, inventory, recipes, sqrt)) ==
            multiset(FinalRanking(recipes, Filtered(selection, inventory), sqrt))
    ensures WithValue(BestMatches(selection, inventory, recipes, sqrt), t) ==
            WithValue(FinalRanking(recipes, Filtered(selection, inventory), sqrt), t)
    ensures Keys(FinalRanking(recipes, Filtered(selection, inventory), sqrt)) ==
            Keys(SimilarityRanking(recipes, Filtered(selection, inventory), sqrt))
  {
    var finals := FinalRanking(recipes, Filtered(selection, inventory), sqrt);
    SortDescDescending(finals);
    SortDescPermutes(finals);
    SortDescStable(finals, t);
  }

  /** Each final score is 0.7 times the recipe's similarity plus 0.3 times
      the expiration term of its ingredients over the selected inventory. */
  lemma BestMatchesScores(selection: seq<string>, inventory: seq<InventoryItem>, recipes: seq<Recipe>, sqrt: real -> real)
    requires RootPositive(sqrt)
    ensures forall e :: e in BestMatches(selection, inventory, recipes, sqrt) ==>
      HasRecipe(recipes, e.key) &&
      exists s :: s in SimilarityRanking(recipes, Filtered(selection, inventory), sqrt) && s.key == e.key &&
                  e.value == Blend(s.value, RecipeExpiration(recipes, e.key, Filtered(selection, inventory)))
  {
    var rows := Filtered(selection, inventory);
    RankingNames(recipes, rows, sqrt);
    var ranking := SimilarityRanking(recipes, rows, sqrt);
    var finals := FinalRanking(recipes, rows, sqrt);
    SortDescPermutes(finals);
    forall e | e in SortDesc(finals)
      ensures HasRecipe(recipes, e.key) &&
              exists s :: s in ranking && s.key == e.key && e.value == Blend(s.value, RecipeExpiration(recipes, e.key, rows))
    {
      assert e in multiset(finals);
      var i :| 0 <= i < |finals| && finals[i] == e;
      KeysAt(finals, i);
      KeysAt(ranking, i);
      assert ranking[i] in ranking;
    }
  }

  /** `find_best_matches`, step by step as model.py runs it. */
  method FindBestMatches(selection: seq<string>, inventory: seq<InventoryItem>, recipes: seq<Recipe>, sqrt: real -> real)
    returns (ranked: seq<Entry<real>>)
    requires RootPositive(sqrt)
    ensures ranked == BestMatches(selection, inventory, recipes, sqrt)
  {
    var scored := AssignPriorities(inventory);
    var rows := Selected(scored, selection);
    var vocab := BuildVocabulary(recipes);
    var vectors := BuildRecipeVectors(recipes, vocab);
    var inv := IngredientVector(Items(rows), vocab);
    RecipeVectorsLengths(recipes, vocab);
    RecipeVectorsKeys(recipes, vocab);
    var scores := ScoreSimilarities(vectors, inv, sqrt);
    var ranking := SortDesc(scores);
    RankingNames(recipes, rows, sqrt);
    var finals := BlendScores(ranking, recipes, rows);
    ranked := SortDesc(finals);
  }

  // ---------------------------------------------------------------------
  // The request handler's decision

  /** A request to `/`: a GET, or a POST with the selected inventory items. */
  datatype Request = Get | Post(selection: seq<string>)

  /** The load-error message, or the page with its recommendations. */
  datatype Response = LoadError | Page(recommendations: seq<Entry<real>>)

  /** Lines 108-118 of `index`: empty inventory or recipe data is an error;
      a GET or a POST without a selection gives no recommendations; otherwise
      the selection is scored. */
  function Index(request: Request, inventory: seq<InventoryItem>, recipes: seq<Recipe>, sqrt: real -> real): (resp: Response)
    requires RootPositive(sqrt)
    ensures resp.LoadError? <==> inventory == [] || recipes == []
    ensures resp.Page? && (request.Get? || request.selection == []) ==> resp.recommendations == []
    ensures resp.Page? && request.Post? && request.selection != [] ==>
      resp.recommendations == BestMatches(request.selection, inventory, recipes, sqrt)
  {
    if inventory == [] || recipes == [] then LoadError
    else if request.Get? || request.selection == [] then Page([])
    else Page(BestMatches(request.selection, inventory, recipes, sqrt))
  }
}
