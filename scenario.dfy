/**
 * A worked example on concrete data: two recipes, "Scrambled Eggs" made of
 * eggs and milk and "Tomato Soup" made of tomatoes, and a user who selects
 * the milk and the eggs of the inventory. The vocabulary is eggs, milk,
 * tomatoes; the recipe vectors are [1, 1, 0] and [0, 0, 1]; and Scrambled
 * Eggs ranks first with similarity 1, ahead of Tomato Soup with 0.
 */
module Scenario {
  import Text
  import opened Dict
  import opened Recommender

  function Recipes(): seq<Recipe>
  {
    [Recipe("Scrambled Eggs", "eggs,milk"), Recipe("Tomato Soup", "tomatoes")]
  }

  lemma SplitEggsMilk()
    ensures Text.Split("eggs,milk", ',') == ["eggs", "milk"]
  {
    assert "eggs,milk" == Text.Join(["eggs", "milk"], ',');
    Text.SplitJoin(["eggs", "milk"], ',');
  }

  lemma SplitTomatoes()
    ensures Text.Split("tomatoes", ',') == ["tomatoes"]
  {
    Text.SplitWithoutSep("tomatoes", ',');
  }

  lemma ScenarioTokens()
    ensures AllTokens(Recipes()) == ["eggs", "milk", "tomatoes"]
  {
    var rs := Recipes();
    SplitEggsMilk();
    SplitTomatoes();
    var first := rs[..1];
    assert first == [rs[0]];
    assert AllTokens(first) == Tokens(rs[0]) by {
      assert first[..0] == [];
    }
    assert AllTokens(rs) == AllTokens(first) + Tokens(rs[1]);
  }

  lemma ScenarioVocabulary()
    ensures Vocabulary(Recipes()) == ["eggs", "milk", "tomatoes"]
  {
    ScenarioTokens();
    VocabAscending();
    Text.AscendingUnique(Vocabulary(Recipes()), Vocab());
  }

  lemma VocabAscending()
    ensures Text.Ascending(Vocab())
  {
    var v := Vocab();
    assert Text.Below(v[0], v[1]) && Text.Below(v[1], v[2]);
    Text.BelowTransitive(v[0], v[1], v[2]);
  }

  function Vocab(): seq<string>
  {
    ["eggs", "milk", "tomatoes"]
  }

  lemma EggsVector()
    ensures IngredientVector(Tokens(Recipes()[0]), Vocab()) == [1, 1, 0]
  {
    SplitEggsMilk();
  }

  lemma SoupVector()
    ensures IngredientVector(Tokens(Recipes()[1]), Vocab()) == [0, 0, 1]
  {
    SplitTomatoes();
    assert "eggs" !in ["tomatoes"] && "milk" !in ["tomatoes"];
  }

  lemma VectorsOfTwo(r0: Recipe, r1: Recipe, vocab: seq<string>)
    requires r0.name != r1.name
    ensures RecipeVectors([r0, r1], vocab) ==
      [Entry(r0.name, IngredientVector(Tokens(r0), vocab)), Entry(r1.name, IngredientVector(Tokens(r1), vocab))]
  {
    var rs := [r0, r1];
    assert rs[..1] == [r0];
    assert [r0][..0] == [];
    var d := [Entry(r0.name, IngredientVector(Tokens(r0), vocab))];
    assert RecipeVectors([r0], vocab) == d;
    PutNew(d, r1.name, IngredientVector(Tokens(r1), vocab));
  }

  lemma ScenarioVectors()
    ensures RecipeVectors(Recipes(), Vocab()) == [Entry("Scrambled Eggs", [1, 1, 0]), Entry("Tomato Soup", [0, 0, 1])]
  {
    EggsVector();
    SoupVector();
    VectorsOfTwo(Recipes()[0], Recipes()[1], Vocab());
  }

  lemma ScenarioInventoryVector(d1: int, d2: int)
    ensures IngredientVector(Items(Filtered(["milk", "eggs"], [InventoryItem("milk", d1), InventoryItem("eggs", d2)])), Vocab()) == [1, 1, 0]
  {
    var inv := [InventoryItem("milk", d1), InventoryItem("eggs", d2)];
    var sel := ["milk", "eggs"];
    var want: seq<Bit> := [1, 1, 0];
    forall i | 0 <= i < 3
      ensures IngredientVector(Items(Filtered(sel, inv)), Vocab())[i] == want[i]
    {
      InventoryVectorSelected(sel, inv, Vocab(), i);
      if i == 0 { assert inv[1] in inv; }
      if i == 1 { assert inv[0] in inv; }
    }
  }

  lemma ScenarioCosines(sqrt: real -> real)
    requires IsSqrt(sqrt)
    ensures Cosine([1, 1, 0], [1, 1, 0], sqrt) == 1.0
    ensures Cosine([1, 1, 0], [0, 0, 1], sqrt) == 0.0
  {
  }

  lemma ScoresOfTwo(a: string, u: seq<Bit>, b: string, w: seq<Bit>, inv: seq<Bit>, sqrt: real -> real)
    requires RootPositive(sqrt)
    requires |u| == |inv| && |w| == |inv|
    ensures SimilarityScores([Entry(a, u), Entry(b, w)], inv, sqrt) == [Entry(a, Cosine(inv, u, sqrt)), Entry(b, Cosine(inv, w, sqrt))]
  {
  }

  lemma SortTwo(x: Entry<real>, y: Entry<real>)
    requires x.value >= y.value
    ensures SortDesc([x, y]) == [x, y]
  {
    assert [x, y][1..] == [y];
    assert SortDesc([y]) == [y] by {
      assert [y][1..] == [];
    }
    assert InsertByValue(x, [y]) == [x] + [y];
  }

  lemma ScenarioRanking(sqrt: real -> real, d1: int, d2: int)
    requires IsSqrt(sqrt)
    ensures SimilarityRanking(Recipes(), Filtered(["milk", "eggs"], [InventoryItem("milk", d1), InventoryItem("eggs", d2)]), sqrt)
         == [Entry("Scrambled Eggs", 1.0), Entry("Tomato Soup", 0.0)]
  {
    var rows := Filtered(["milk", "eggs"], [InventoryItem("milk", d1), InventoryItem("eggs", d2)]);
    ScenarioVocabulary();
    ScenarioVectors();
    ScenarioInventoryVector(d1, d2);
    ScenarioCosines(sqrt);
    ScoresOfTwo("Scrambled Eggs", [1, 1, 0], "Tomato Soup", [0, 0, 1], [1, 1, 0], sqrt);
    SortTwo(Entry("Scrambled Eggs", 1.0), Entry("Tomato Soup", 0.0));
  }
}
