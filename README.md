# Food-wastage recipe recommender and onboarding wizard, in Dafny

This project models two parts of the Food-Wastage-ElectricTwin application and proves properties about them.

**The content-based recipe recommender of `model.py`.**
- `calculate_priority_score` turns the days left before an item expires into an urgency value in [0, 100].
- `create_ingredient_vector` builds a binary presence vector over a vocabulary.
- `find_best_matches` runs the pipeline:
  - it scores the inventory;
  - it keeps the rows the user selected;
  - it builds the sorted vocabulary of recipe ingredient tokens;
  - it computes one vector per recipe name, and the vector of the selected inventory;
  - it computes the cosine similarity of every recipe to the inventory and sorts by it;
  - it adds an expiration term (the sum of the priorities of the recipe's ingredients found in the selected inventory) with weights 0.7 and 0.3;
  - it sorts again by the final score.
- `index` decides between an error page, an empty recommendation list and a scored one.

**The five-step onboarding wizard of `onboarding-flow.tsx`.** Its state is the current step, a completion flag and a record of five answers. Four handlers change that state. A per-step validity check, which includes an e-mail pattern, and the progress bar's percentage are functions of it.

Files:
- `text.dfy` (module `Text`): Python's `str.split` with a separator, with its inverse `join`; Python's ordering of strings; and `sorted` of a set of strings.
- `dict.dfy` (module `Dict`): a Python `dict` as a sequence of entries in insertion order. Assigning an existing key replaces its value in place; a new key is appended. Also `sorted(d.items(), key=value, reverse=True)` as a stable insertion sort.
- `recommender.dfy` (module `Recommender`): the recommender and the decision of `index`.
- `scenario.dfy` (module `Scenario`): the pipeline on two concrete recipes, scrambled eggs and tomato soup.
- `onboarding.dfy` (module `Onboarding`): the wizard. The component is a class whose fields are the three pieces of React state and whose methods are the handlers.

Modelling choices:
- Tables are sequences of records, kept in table order.
- An expiration date is replaced by `daysLeft`, the `.days` of `expiration_date - datetime.now()` at model.py:42. That difference runs from the current time to the expiration date's midnight, and `.days` rounds it down to whole days. So at any time after midnight, an item dated today has `daysLeft == -1`, an item dated tomorrow has `daysLeft == 0`, and an item dated d days ahead has `daysLeft == d - 1`.
- Scores are exact reals, and priorities are integers as in Python.
- The square root inside `cosine_similarity` is a parameter `sqrt`.
  - Every operation needs only that it maps a positive number to a positive number (`RootPositive`).
  - The bound lemmas additionally assume it is the exact square root (`IsSqrt`).
- Zero vectors follow scikit-learn: a zero-length vector stays zero, so its similarity with anything is 0.
- Duplicate recipe names follow the code exactly.
  - `recipe_vectors` keeps a duplicated name at the position where it first appeared, holding the vector of the LAST recipe with that name (`RecipeVectorsKeys`, `RecipeVectorsLast`).
  - The expiration term reads the ingredients of the FIRST recipe with that name, through `.iloc[0]` at model.py:86 (`FirstRecipe`).
- The loading error is reported when EITHER table is empty, as the code at model.py:108 does, and not only when both are.
- `handleSubmit` does not check the step's validity; only the disabled button does, and that button belongs to the rendering. The model's `HandleSubmit` therefore has no validity precondition.

## Model

| member | source | states |
|---|---|---|
| Recommender.PriorityScore | model.py:40-46 | in terms of `daysLeft` (the rounded-down `.days` count): the score is 100 exactly when `daysLeft <= 0`, so an item dated tomorrow already scores 100; it is 0 exactly when `daysLeft >= 20`, i.e. from 21 calendar days ahead; it is `100 - 5 * daysLeft` in between; and it is always in [0, 100] |
| Recommender.PriorityMonotone | model.py:44-46 | an item that expires later never gets a higher priority |
| Recommender.WithPrioritiesBounded | model.py:56 | every priority in the scored inventory column lies in [0, 100] |
| Recommender.AssignPriorities | model.py:56 | the loop that fills the `priority_score` column gives the row-by-row priority of every inventory row, in order |
| Recommender.Selected | model.py:57 | the filtered inventory holds exactly the scored rows whose item was selected |
| Recommender.Items | model.py:72 | the item list holds exactly the items of the rows |
| Text.Split | model.py:62 | splitting yields at least one piece, and no piece contains the separator |
| Text.JoinSplit | model.py:62 | joining the pieces with the separator gives back the original string, so splitting loses nothing |
| Text.SplitJoin | model.py:62 | splitting the join of separator-free pieces gives back those pieces |
| Text.BelowTrichotomy | model.py:64 | Python's string order is irreflexive, asymmetric and total |
| Text.BelowTransitive | model.py:64 | Python's string order is transitive |
| Text.SortedDistinct | model.py:60-64 | the sorted distinct strings of a list are strictly ascending and are exactly the list's strings |
| Text.SortedList | model.py:64 | sorting a set of strings by repeatedly taking the least one yields a strictly ascending list of exactly the set's members |
| Text.AscendingUnique | model.py:64 | two strictly ascending lists with the same members are equal, so the sorted vocabulary is determined by its set of tokens |
| Text.DistinctByCount | model.py:81 | helper for the sort's key facts: a list has no repeated string exactly when no string occurs in it more than once, which carries "each name once" through the permutation of `sorted` (Dict.SortDescDistinct) |
| Recommender.AllTokensMembers | model.py:60-63 | the accumulated tokens are exactly the comma-split tokens of some recipe |
| Recommender.VocabularyExact | model.py:60-64 | the vocabulary is strictly ascending, has no duplicates and holds exactly the tokens of the recipes |
| Recommender.VocabularyOrderFree | model.py:60-64 | two recipe tables with the same recipes, in any order and with any repetition, give the same vocabulary |
| Recommender.BuildVocabulary | model.py:60-64 | the loop that grows the token set and then sorts it yields the vocabulary |
| Recommender.IngredientVector | model.py:49-52 | the vector is as long as the vocabulary, and entry i is 1 exactly when `vocab[i]` is among the ingredients |
| Recommender.SameTokensSameVector | model.py:69 | ingredient lists with the same tokens get the same vector |
| Recommender.InventoryVectorSelected | model.py:72 | entry i of the inventory vector is 1 exactly when `vocab[i]` was selected and is an item of the inventory |
| Dict.Find | model.py:69 | helper for stating what `d[k] = v` stores: a lookup fails exactly when the key is absent, and a hit returns a stored entry |
| Dict.PutKeys | model.py:69 | storing under an existing key keeps the key order; storing under a new key appends it |
| Dict.PutFind | model.py:69 | after storing, the key maps to the new value and every other key keeps its value |
| Dict.FindAt | model.py:69 | in a dict that holds each key once, looking up an entry's key gives that entry's value |
| Dict.PutDistinct | model.py:69 | storing keeps each key once, and a new key is appended with its value at the end |
| Dict.PutEntries | model.py:69 | every entry after storing was already there or is the new one |
| Recommender.RecipeVectorsKeys | model.py:67-69 | recipe_vectors holds each recipe name once, in the order names first appear in the table |
| Recommender.RecipeVectorsValues | model.py:67-69 | each vector in recipe_vectors is the vector of some recipe with that name |
| Recommender.LastRecipe | model.py:67-69 | the recipe returned has the name, and no later recipe of the table has it |
| Recommender.RecipeVectorsLast | model.py:67-69 | looking a name up in recipe_vectors gives the vector of the last recipe with that name, because later rows overwrite earlier ones; a name no recipe has is absent |
| Recommender.RecipeVectorsNames | model.py:67-69 | the names in recipe_vectors are exactly the recipe names of the table |
| Recommender.RecipeVectorsLengths | model.py:67-69 | every recipe vector is as long as the vocabulary |
| Recommender.BuildRecipeVectors | model.py:67-69 | the loop that fills recipe_vectors yields the dict described above |
| Recommender.Cosine | model.py:77 | the similarity is 0 when either vector is zero or the dot product is 0; otherwise it times the product of the norms equals the dot product; it is never negative |
| Recommender.CosineSymmetric | model.py:77 | the similarity of u to v equals that of v to u |
| Recommender.DotBelowNorms | model.py:77 | on presence vectors the dot product is at most either squared norm |
| Recommender.CosineBounded | model.py:77 | with an exact square root the similarity lies in [0, 1] |
| Recommender.CosineSelf | model.py:77 | with an exact square root a non-zero vector has similarity 1 with itself |
| Recommender.DotCountsShared | model.py:72-77 | the dot product of two presence vectors over a duplicate-free vocabulary is the number of vocabulary tokens in both ingredient lists |
| Recommender.CosineDisjoint | model.py:72-77 | the similarity is 0 when the inventory and the recipe share no vocabulary token |
| Recommender.SimilarityScores | model.py:75-78 | recipe_scores has the names of recipe_vectors in the same order, each with the cosine similarity of its vector to the inventory vector |
| Recommender.ScoreSimilarities | model.py:75-78 | the loop that fills recipe_scores yields that dict |
| Dict.SortDescPermutes | model.py:81 | sorting the items is a permutation of them and of their keys |
| Dict.SortDescDescending | model.py:81 | the sorted items are in descending order of value |
| Dict.SortDescStable | model.py:81 | items with equal values keep their input order |
| Dict.SortDescKeys | model.py:81 | sorting a dict's items keeps exactly its keys, each once |
| Recommender.RankingNames | model.py:67-81 | the similarity ranking lists each recipe name of the table once and nothing else |
| Recommender.RankingSimilarity | model.py:67-81 | each similarity in the ranking is the cosine between the inventory vector and the vector of the LAST recipe of the table with that name, the one recipe_vectors kept |
| Recommender.RankingStable | model.py:81 | the ranking is descending, recipe_scores is in first-appearance order of the names, and recipes with equal similarity keep that order |
| Recommender.FirstMatchFirst | model.py:89-90 | there is no match exactly when no row has the token; a match is the priority of the first row with that item |
| Recommender.FirstMatchSelected | model.py:89-90 | among the selected rows, a selected token's first row is its first row in the whole table, and an unselected token has none |
| Recommender.ExpirationAppend | model.py:87-91 | the expiration term of a concatenation is the sum of the terms of its parts |
| Recommender.ExpirationTwice | model.py:88-91 | a token listed twice in a recipe counts twice |
| Recommender.ExpirationBounds | model.py:87-91 | with priorities in [0, 100], the term lies between 0 and 100 times the number of tokens |
| Recommender.ExpirationSelected | model.py:87-91 | only selected inventory rows contribute: the term over the filtered rows is the term of the selected tokens over all scored rows |
| Recommender.Among | model.py:89 | the kept tokens are exactly the tokens that were selected |
| Recommender.ExpiringIngredientScore | model.py:87-91 | the accumulating loop computes the expiration term |
| Recommender.FirstRecipe | model.py:86 | the recipe returned has the name asked for, and no earlier recipe of the table has that name |
| Recommender.BlendMonotone | model.py:94 | the final score does not decrease when either the similarity or the expiration term grows |
| Recommender.FinalScores | model.py:84-95 | final_scores has the names of the similarity ranking in the same order, each with 0.7 times its similarity plus 0.3 times its recipe's expiration term |
| Recommender.BlendScores | model.py:84-95 | the nested loop that fills final_scores yields that dict |
| Recommender.BestMatchesNames | model.py:95-98 | the result lists every recipe name of the table exactly once |
| Recommender.BestMatchesOrder | model.py:98 | the result is in descending order of final score, is a permutation of final_scores, keeps recipes with equal final scores in the order of the similarity ranking, and final_scores follows that ranking's name order |
| Recommender.BestMatchesScores | model.py:84-98 | each result entry is a recipe name whose score is 0.7 times its ranked similarity plus 0.3 times its expiration term over the selected inventory |
| Recommender.FindBestMatches | model.py:54-99 | the step-by-step pipeline computes exactly the ranking described above |
| Recommender.Index | model.py:108-118 | the error page is returned exactly when the inventory or the recipe table is empty; a GET or a POST without a selection gives no recommendations; a POST with a selection gives the ranking |
| Scenario.ScenarioVocabulary | model.py:60-64 | for the eggs-and-milk and tomato-soup recipes the vocabulary is eggs, milk, tomatoes |
| Scenario.ScenarioVectors | model.py:67-69 | their vectors are [1, 1, 0] and [0, 0, 1] |
| Scenario.ScenarioInventoryVector | model.py:72 | selecting milk and eggs gives the inventory vector [1, 1, 0] |
| Scenario.ScenarioCosines | model.py:77 | the similarities are 1 and 0 |
| Scenario.ScenarioRanking | model.py:81 | scrambled eggs is ranked first with similarity 1, tomato soup second with 0 |
| Onboarding.InitialData | onboarding-flow.tsx:6-12 | the initial answers hold exactly the five fields, all empty |
| Onboarding.OnboardingFlow.constructor | onboarding-flow.tsx:5-13 | the wizard starts at step 1, not complete, with every answer empty |
| Onboarding.OnboardingFlow.HandleChange | onboarding-flow.tsx:16-22 | exactly the named field takes the new value; every other field, the step and the completion flag are unchanged |
| Onboarding.OnboardingFlow.HandleOptionSelect | onboarding-flow.tsx:25-30 | exactly the given field takes the new value; nothing else changes |
| Onboarding.OnboardingFlow.HandleSubmit | onboarding-flow.tsx:33-40 | below step 5 the step goes up by one and completion is unchanged; at step 5 the step stays and the wizard is complete; the step stays in 1..5 |
| Onboarding.OnboardingFlow.HandleBack | onboarding-flow.tsx:43-47 | above step 1 the step goes down by one, at step 1 nothing changes, and the completion flag is never touched |
| Onboarding.TrimStart | onboarding-flow.tsx:53 | the result is a suffix of the input, starts with a non-space if it is not empty, and only white space was removed |
| Onboarding.TrimEnd | onboarding-flow.tsx:53 | the result is a prefix of the input, ends with a non-space if it is not empty, and only white space was removed |
| Onboarding.TrimEmpty | onboarding-flow.tsx:53 | a string trims to the empty string exactly when it is all white space |
| Onboarding.TrimIdempotent | onboarding-flow.tsx:53 | trimming twice is trimming once |
| Onboarding.IndexOf | onboarding-flow.tsx:55 | the index found holds the first occurrence of the character, or is the length when there is none |
| Onboarding.EmailValidShape | onboarding-flow.tsx:55-56 | the scan accepts a string exactly when the pattern matches it: a non-empty part without white space or '@', an '@', a non-empty such part, a '.', and a non-empty such part |
| Onboarding.PlainAround | onboarding-flow.tsx:55 | in a string of the pattern's shape, the only '@' is the separator and there is no white space |
| Onboarding.StepValid | onboarding-flow.tsx:50-66 | step 1 is valid exactly when the name is not all white space, step 2 exactly when the e-mail matches the pattern, steps 3 to 5 exactly when household size, cooking approach and storage size are not empty, and no other step is valid |
| Onboarding.Progress | onboarding-flow.tsx:383 | the percentage is 20 times the step; for steps 1 to 5 it is positive, at most 100, and 100 exactly at step 5 |

## Left out

- Loading the CSV files (model.py:16-38): reading files, parsing dates and the seven-day default are I/O. The tables are given to the model as sequences of records.
- The clock (model.py:42): `datetime.now()` and the day count of a time difference are replaced by the whole number of days left, given as input.
- Recommender.Cosine: scikit-learn's floating-point square root, division and rounding are not modelled. The root is the parameter `sqrt`, which is why the bound and self-similarity lemmas assume it is exact.
- Recommender.Blend: the 0.7 and 0.3 weights and every score are exact reals, not double-precision floats, so rounding and ties that floats would create or break are not modelled.
- The in-place new column of the pandas frame (model.py:56) is modelled as a new sequence of scored rows. That the caller's frame gains the column is not modelled.
- The Flask application, the request object and `render_template` (model.py:3, 7, 103-107, 120): only the decision of lines 108-118 is modelled. The inventory item list handed to the page is not.
- The `__main__` block (model.py:123-143) creates example files and starts the server, which is setup and I/O.
- The rendering of the wizard (onboarding-flow.tsx:68-412): the JSX, the styles, the option tables, the completion screen's look-ups and the disabled state of the buttons are not modelled.
- Onboarding.OnboardingFlow.IsStepValid and Onboarding.OnboardingFlow.ProgressPercentage only apply StepValid and Progress to the current state. Their meaning is stated on those two functions.
- JavaScript strings are sequences of UTF-16 code units, while Dafny's are sequences of Unicode scalar values. Characters outside the Basic Multilingual Plane are neither white space nor '@', so the two views accept the same strings.
- The embedding-based collaborative-filtering recommender is not part of this model, because its source is not among the files modelled.
