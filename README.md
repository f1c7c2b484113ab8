# Content-based movie recommender: a Dafny model

This project models the core of a desktop movie recommender. The core has four parts:

- **Data loader** (`app/utils/data_loader.py`). It fills missing cells and drops rows whose id repeats. It adds the derived columns and builds each movie's content profile.
- **Text corrector** (`app/utils/validators.py`):
  - `normalize_text` reduces a string to lower-case ASCII letters and digits separated by single spaces;
  - the numeric and text validators check user input;
  - the `TextCorrector` class builds reverse indexes from normalized actor, director and company names to rows, and from normalized titles to the original titles. `corregir_titulo` and `corregir_nombre_entidad` then correct input by thresholded best match.
- **Recommender** (`app/models/recommender.py`):
  - recommendations for a known title, ranked by cosine similarity, without the top slot;
  - free-text search, which puts an exact title match first;
  - the filtered "smart" search over actors and directors;
  - movie details.
- **Predictor** (`app/models/predictor.py`):
  - the rating prediction clamped to [0, 10];
  - the feature-importance ranking;
  - the six input-range checks.

Modules follow the source files:

| file | module | models |
|---|---|---|
| `wrappers.dfy` | `Wrappers` | `Option`, `Result` |
| `text.dfy` | `Text` | Python's `str.isspace`, `strip`, `lower`, `split`, `join` on `seq<char>` |
| `pylist.dfy` | `PyList` | Python slicing; first occurrences and dict-key order |
| `ranking.dfy` | `Ranking` | `sorted(..., key=score, reverse=True)`, which is stable |
| `validators.dfy` | `Validators` | `normalize_text` and the three validators |
| `text_corrector.dfy` | `Corrector` | the `TextCorrector` class |
| `data_loader.dfy` | `DataLoader` | the preprocessing in `load_data` |
| `recommender.dfy` | `Recommender` | the `MovieRecommender` class |
| `predictor.dfy` | `Predictor` | the `MoviePredictor` logic |

Library results enter the model as parameters or as fields whose only assumptions are stated in the class's `Valid()`:

- **rapidfuzz `token_sort_ratio`**: the `tokenSortRatio` field. It may be any function to real scores from 0.0 to 100.0, as rapidfuzz returns floats; the thresholds 70 and 75 are compared with them as reals.
- **rapidfuzz `extractOne`**: modelled as "the first choice with the highest score".
- **TF-IDF similarity**: the `cosineSim` matrix, plus `querySimilarity`, which gives one score per row for a query.
- **numpy `argsort`**: `argsort`, assumed to return an ascending ordering of the positions.
- **Python `list(set)`**: `listSet`, assumed to list each member of the set once.
- **Random-forest regressor**: a `seq<real> -> real` parameter.

Rows of the frame are identified by their position everywhere.

## Model

| member | source | states |
|---|---|---|
| Text.Strip | app/utils/validators.py:48-51 | the stripped text is the slice between the leading and trailing whitespace; it is empty exactly when the text is blank; otherwise it starts and ends with a non-space |
| Text.LowerDistributes | app/utils/validators.py:12 | lower-casing distributes over concatenation |
| Text.JoinSplit | app/models/recommender.py:99 | joining the parts of `split(sep)` with `sep` gives back the original string |
| PyList.ClipBound | app/models/recommender.py:34 | a Python slice bound: negative bounds count from the end, and the result is clipped to 0..len |
| PyList.SliceTake | app/models/recommender.py:34 | `s[0:n]` for n >= 0 is the first min(n, len) items |
| PyList.SliceLast | app/models/recommender.py:69 | `s[-n:]` is the last n items; for n = 0 it is the whole list |
| PyList.Reverse | app/models/recommender.py:69 | `[::-1]` puts item len-1-i at i |
| PyList.FirstPositions | app/utils/data_loader.py:43 | the positions of first occurrences, ascending; every first occurrence is listed |
| PyList.Dedup | app/utils/validators.py:93-96 | dict keys in insertion order: the k-th key is the value at the k-th first occurrence, so the keys are distinct and exactly the values inserted |
| Ranking.SortDesc | app/models/recommender.py:31 | the sorted list is a permutation of the input with non-increasing scores |
| Ranking.SortDescStable | app/models/predictor.py:46-50 | the sort is stable: for each score, the pairs with that score keep their input order |
| Ranking.SortDescTiesByKey | app/models/recommender.py:28-31 | sorting `enumerate(row)` leaves tied scores in ascending position order |
| Validators.AsciiOnly | app/utils/validators.py:10 | the ASCII encode with 'ignore' keeps only characters below 128, and leaves ASCII text unchanged |
| Validators.ReplaceRuns | app/utils/validators.py:14 | `re.sub('[^a-z0-9]+', ' ', s)`: single spaces only between runs of word characters; empty exactly for empty input |
| Validators.ReplaceRunsWordChars | app/utils/validators.py:14 | replacing the runs keeps the word characters and their order |
| Validators.NormalizeCanonical | app/utils/validators.py:7-17 | the result of `normalize_text` is canonical: only a-z and 0-9 words separated by single spaces, nothing at either end |
| Validators.NormalizeWordChars | app/utils/validators.py:7-17 | the result keeps exactly the letters and digits of the lower-cased ASCII input, in order |
| Validators.NormalizeIdempotent | app/utils/validators.py:7-17 | normalizing twice equals normalizing once, and a string is fixed by normalization exactly when it is canonical |
| Validators.NormalizeEmpty | app/utils/validators.py:7-17 | the result is empty exactly when the input has no ASCII letter or digit |
| Validators.ValidateFloat | app/utils/validators.py:20-30 | success exactly when the text parses and satisfies both optional bounds, with the parsed value; otherwise the not-a-number error, then the minimum, then the maximum error, in the source's order |
| Validators.ValidateInt | app/utils/validators.py:33-43 | the same for integers, with the not-an-integer error |
| Validators.ValidateText | app/utils/validators.py:46-55 | blank text gives the empty error; otherwise the stripped text, unless a non-zero max length is exceeded, which gives the too-long error |
| DataLoader.FillMissing | app/utils/data_loader.py:41-42 | a missing overview becomes "" and a missing director "Unknown"; every other column is copied, and the derived columns start as 0, 0 and "" |
| DataLoader.ContentProfileLayout | app/utils/data_loader.py:65-74 | the profile is the lower-cased genres, cast, companies, director and overview joined by exactly four single spaces, so its length is theirs plus 4, and it has no upper-case letter |
| DataLoader.AddDerived | app/utils/data_loader.py:51-56 | num_genres and num_cast are the list lengths, and the content profile is added; nothing else changes |
| DataLoader.DropDuplicateIds | app/utils/data_loader.py:43 | the kept rows are the input rows at the kept labels |
| DataLoader.DropDuplicatesKeepsFirst | app/utils/data_loader.py:43 | each id keeps its first row; the kept ids are distinct; every input id survives; labels ascend |
| DataLoader.UniqueIdsKeepLabels | app/utils/data_loader.py:43 | without repeated ids nothing is dropped, and every label equals its position |
| DataLoader.LabelsArePositions | app/utils/data_loader.py:43 | ascending labels that cover 0..n-1 exactly are the positions 0..n-1 |
| DataLoader.LoadedFacts | app/utils/data_loader.py:37-56 | each loaded row is the filled, derived raw row at its label; no earlier raw row has its id; labels ascend; ids are unique and all survive |
| DataLoader.Loader.LoadData | app/utils/data_loader.py:24-59 | the new `df` and index labels are the loaded frame with the properties of LoadedFacts |
| DataLoader.DuplicateIdShiftsLabels | app/utils/data_loader.py:43 | ids 7, 7, 8 keep labels [0, 2]: label 2 is not a position of the two-row frame |
| Corrector.FirstBestUnique | app/utils/validators.py:105-109 | the first best match is unique |
| Corrector.ExtractOne | app/utils/validators.py:105-109 | `extractOne` returns nothing exactly for no choices; otherwise the first choice with the highest score, with that score |
| Corrector.ExtractExact | app/utils/validators.py:144-148 | for a listed query that scores 100 against itself, extractOne returns a choice scoring 100, and returns the query itself exactly when no other choice scoring 100 comes before it |
| Corrector.IndexOfMembers | app/utils/validators.py:72-85 | a key is in the index exactly when some pair names it, and maps to exactly the rows of those pairs |
| Corrector.MentionsMeaning | app/utils/validators.py:72-85 | (k, i) is a mention exactly when row i names some entity that normalizes to k |
| Corrector.NameIndexExact | app/utils/validators.py:68-85 | a name key is indexed exactly when some row names it, and maps to exactly those rows |
| Corrector.NameIndexComplete | app/utils/validators.py:72-85 | every name in a row is indexed under its normalization with that row |
| Corrector.NameIndexKeys | app/utils/validators.py:94-96 | the key list is the mentions' keys in first-insertion order, and it lists exactly the index's keys |
| Corrector.NameIndexKeysFromNames | app/utils/validators.py:72-85 | every key is the normalization of some name in some row |
| Corrector.NameIndexCanonical | app/utils/validators.py:75-84 | every key of an entity index is canonical |
| Corrector.NameIndexInRange | app/utils/validators.py:72-85 | every indexed row is a position of the frame |
| Corrector.WithKeySound | app/utils/validators.py:88-91 | every title listed under a key was filed with that key |
| Corrector.WithKeyEmpty | app/utils/validators.py:88-91 | a key has no titles exactly when no title normalizes to it |
| Corrector.WithKeyComplete | app/utils/validators.py:88-91 | each title is filed under its own normalized key |
| Corrector.TitleIndexExact | app/utils/validators.py:88-93 | a key is in norm_to_titles exactly when some title normalizes to it; its list is those titles in order; the key list and the map agree |
| Corrector.TitleIndexKeys | app/utils/validators.py:93 | titulos_norm is the normalized titles in first-insertion order |
| Corrector.TitleFiled | app/utils/validators.py:88-93 | each title of the frame appears in the list under its normalized key |
| Corrector.AddTo | app/utils/validators.py:76 | `index[key].add(row)` with `key` appended to the key list the first time it appears |
| Corrector.FileNames | app/utils/validators.py:74-76 | the inner loop over one row's names adds exactly those mentions to the index |
| Corrector.FileRow | app/utils/validators.py:72-85 | one row of the loop leaves the three indexes of the rows up to and including it |
| Corrector.FileRows | app/utils/validators.py:72-85 | the loop over all rows leaves exactly the three entity indexes of the frame |
| Corrector.FileTitles | app/utils/validators.py:88-93 | the title loop leaves exactly the title index of the frame |
| Corrector.BuiltSound | app/utils/validators.py:65-96 | the built indexes have canonical keys, member rows in range, and non-empty title lists that normalize to their key |
| Corrector.TextCorrector.constructor | app/utils/validators.py:61-96 | the indexes are exactly those of the frame, and sound |
| Corrector.TextCorrector.CorrectTitle | app/utils/validators.py:98-126 | blank input comes back unchanged; the result is the input or a title of the frame; below the threshold it is the input; otherwise it is picked from the titles under the first best key (the only one, or the best tie-break) |
| Corrector.TextCorrector.Candidates | app/utils/validators.py:135-142 | 'actor', 'director' and 'company' select their key lists; any other kind selects none |
| Corrector.TextCorrector.CorrectEntityName | app/utils/validators.py:128-153 | blank input comes back unchanged; otherwise the result is canonical; it is the normalized input for an unknown kind, or else the first best candidate at or above the threshold, or the normalized input |
| Corrector.ResolveTitle | app/utils/validators.py:103-126 | the title chosen is the input or a title under some key; below the threshold it is the input; otherwise it is picked from the titles under the first best key |
| Corrector.MatchOrKeep | app/utils/validators.py:144-153 | the result is the first best candidate when it reaches the threshold, and the query otherwise |
| Corrector.ResolveExact | app/utils/validators.py:103-124 | for a title t filed under key ni, both scoring 100 against themselves: the chosen key scores 100 and the result is one of its titles; the key is ni exactly when no other perfect key comes first, and then t comes back exactly when it wins the tie-break |
| Corrector.PickedOwn | app/utils/validators.py:112-124 | the tie-break among a key's titles returns t, one of them, exactly when no other title scoring 100 against t comes before it; a single title is returned as is |
| Corrector.OwnTitleResolved | app/utils/validators.py:103-126 | over a sound title index, t comes back exactly when its own key is the first perfect key and t wins the tie-break under it; the result has t's normalization exactly when that key is the first perfect key |
| Corrector.ExactTitleKept | app/utils/validators.py:98-126 | a non-blank title of the frame comes back unchanged from corregir_titulo exactly when its key is the first key scoring 100 and it wins the tie-break under that key; otherwise another title of the frame comes back, which has the same normalization exactly when the key was first (an earlier title won the tie-break) |
| Corrector.ExactNameKept | app/utils/validators.py:128-153 | a name whose normalization is a known key comes back as a key scoring 100, and as its own normalization exactly when no other key scoring 100 comes first |
| Recommender.FirstTitle | app/models/recommender.py:20-25 | no row has the title case-insensitively exactly when the result is None; otherwise it gives the first such row |
| Recommender.RankedFacts | app/models/recommender.py:28-31 | the ranking of a similarity row holds each position once with its score, with non-increasing scores and ties by position |
| Recommender.RankedCovers | app/models/recommender.py:28-31 | every position of the row is ranked |
| Recommender.RecommendRows | app/models/recommender.py:34-43 | for n >= 0 the list has min(n, N-1) rows, with their scores, non-increasing, ties by position |
| Recommender.RecommendDropsTop | app/models/recommender.py:34 | the dropped slot is the first maximum of the row, and it is not listed |
| Recommender.RecommendTop | app/models/recommender.py:31-34 | no unlisted row other than the dropped one scores above a listed row |
| Recommender.SelfRecommended | app/models/recommender.py:31-34 | with two equal rows, the list for row 1 is row 1 itself, because slot 0 goes to row 0 |
| Recommender.DropKeyLength | app/models/recommender.py:34 | removing a position present once shortens the ranking by one |
| Recommender.DropKeyOrder | app/models/recommender.py:34 | removing a position keeps the scores non-increasing |
| Recommender.RankExcludingSelfRows | app/models/recommender.py:28-43 | excluding the query row: min(n, N-1) rows, never the query row, scores non-increasing |
| Recommender.RankExcludingSelfTop | app/models/recommender.py:28-43 | excluding the query row: no unlisted other row scores above a listed one |
| Recommender.TopNAt | app/models/recommender.py:69 | `argsort()[-n:][::-1]` for n >= 1 is the last min(n, N) positions of the ordering, last first |
| Recommender.TopNDesc | app/models/recommender.py:69 | for an ascending ordering the top n are min(n, N) distinct positions, best first |
| Recommender.TopNAbove | app/models/recommender.py:69 | no position left out of the top n scores above a listed one |
| Recommender.DropAllDistinct | app/models/recommender.py:74 | the comprehension `[i for i in ... if i != idx_exact]` keeps distinct positions distinct |
| Recommender.DropAllDesc | app/models/recommender.py:74 | the same filter keeps best-first order |
| Recommender.FinalsInRange | app/models/recommender.py:72-76 | the final positions are rows of the frame |
| Recommender.FinalsWithout | app/models/recommender.py:75-76 | without an exact match the finals are the top min(n, N), distinct, best first, with none left out scoring above |
| Recommender.DropOneLength | app/models/recommender.py:74 | removing a position from a duplicate-free list shortens it by one exactly when the position is listed |
| Recommender.FinalsWith | app/models/recommender.py:72-74 | with an exact match e: e first and only there, min(n, len(t)) rows when e is among the top positions t and min(n, len(t) + 1) otherwise, the rest best first, and no other unlisted row scoring above them |
| Recommender.TopNMissing | app/models/recommender.py:69 | a row left out of the top n means the top n are n rows |
| Recommender.FinalsWithCount | app/models/recommender.py:69-74 | with an exact match under the argsort: exactly min(n, N) rows, the match first and only there, the rest the most similar others, best first |
| Recommender.ZeroRowsList | app/models/recommender.py:69-76 | for n = 0 and N >= 2: no rows without an exact match, and N - 1 rows with one, since `[:n-1]` is `[:-1]` over the whole ordering |
| Recommender.ScoredAt | app/models/recommender.py:83 | each listed position paired with its score |
| Recommender.NonBlankAt | app/models/recommender.py:98 | the positions of exactly the non-blank parts, in increasing order |
| Recommender.Pieces | app/models/recommender.py:98 | `[a.strip() for a in parts if a.strip()]`: the k-th piece is the k-th non-blank part stripped, it is not blank, and there are none when every part is blank |
| Recommender.CorrectEach | app/models/recommender.py:97-100 | the k-th name is the k-th non-blank part, stripped and corrected by CorrectEntityName; the names are canonical, and there are none when every part is blank |
| Recommender.Lookup | app/models/recommender.py:101-105 | the row sets of the resolved names are empty exactly when no name is indexed |
| Recommender.IntersectAll | app/models/recommender.py:107 | a row is in the intersection exactly when it is in every set |
| Recommender.LookupShared | app/models/recommender.py:101-107 | a row is in every looked-up set exactly when every indexed resolved name lists it |
| Recommender.CombineRows | app/models/recommender.py:122-126 | absent exactly when both stages are absent; otherwise a row is kept exactly when it passes each present stage |
| Recommender.StageMembers | app/models/recommender.py:96-126 | a non-blank field keeps exactly the rows shared by all its indexed resolved names, and none when no name resolves |
| Recommender.KeepComplete | app/models/recommender.py:147-150 | every exact-title row among the results is collected |
| Recommender.KeepDesc | app/models/recommender.py:147-150 | the collected rows keep their best-first order |
| Recommender.TitledRows | app/models/recommender.py:149 | exactly the rows whose title equals pelicula case-insensitively |
| Recommender.ExactFirstRows | app/models/recommender.py:146-153 | moving the exact matches to the front reorders the results without loss or repetition |
| Recommender.ExactFirstLayout | app/models/recommender.py:146-153 | after the move, all the titled rows come first and every other row after them, each group best first |
| Recommender.RankedSubset | app/models/recommender.py:134-141 | the sorted (row, score) pairs of the listed subset hold each listed row once with its score, non-increasing |
| Recommender.FilteredTopShape | app/models/recommender.py:137-143 | the first top_n hold min(top_n, \|subset\|) distinct rows, best first |
| Recommender.FilteredTopBest | app/models/recommender.py:137-143 | no subset row left out scores above a kept one |
| Recommender.MovieRecommender.constructor | app/models/recommender.py:8-14 | given the frame, its corrector, similarity matrix and library functions meeting their assumptions, the recommender holds them and satisfies its invariant |
| Recommender.MovieRecommender.GetMovieRecommendations | app/models/recommender.py:16-48 | fails with the not-found message exactly when no row has the title |
| Recommender.MovieRecommender.RecommendationsRanked | app/models/recommender.py:16-45 | for a known title and n >= 0: min(n, N-1) rows with their similarity, best first with ties by position; the first maximum is left out and no other unlisted row scores above a listed one |
| Recommender.MovieRecommender.CorrectedQuery | app/models/recommender.py:57-59 | the corrected query is the query or a title of the frame; a blank query is unchanged |
| Recommender.MovieRecommender.SearchSimilarMovies | app/models/recommender.py:50-88 | fails with the empty-query message exactly when the query is blank; each listed row carries its similarity to the corrected query |
| Recommender.MovieRecommender.SearchRanked | app/models/recommender.py:62-85 | for n >= 1: exactly min(n, N) distinct rows; an exact title comes first, once, and the rest are the most similar other rows, best first; without one, the min(n, N) most similar rows, best first |
| Recommender.MovieRecommender.GetMovieDetails | app/models/recommender.py:170-192 | fails with the not-found message exactly when no row has the title; otherwise it gives the first such row |
| Recommender.MovieRecommender.FilterRows | app/models/recommender.py:93-126 | the filter is absent exactly when both fields are blank, and keeps exactly the rows that pass both stages |
| Recommender.MovieRecommender.FilterInRange | app/models/recommender.py:93-126 | every filtered row is a row of the frame |
| Recommender.MovieRecommender.SmartSearch | app/models/recommender.py:90-168 | no filter or an empty one falls back to the semantic search with top_n; otherwise it succeeds, and for top_n >= 0 lists min(top_n, \|set\|) distinct filtered rows with their query scores, exact titles first, best first in each group, with none left out scoring above a listed one |
| Recommender.ActorStage | app/models/recommender.py:96-109 | idxs after the actor field is the actor stage: none for a blank field, otherwise the rows shared by the resolved names (no rows when none resolves); StageMembers characterises that set |
| Recommender.DirectorStage | app/models/recommender.py:112-126 | idxs after the director field is the director stage intersected with the actor stage when there is one; CombineRows characterises that set |
| Recommender.RankFiltered | app/models/recommender.py:133-153 | resultados_idx is the first top_n of the ranking inside the listing, with the titled rows then moved to the front, and every position is a row of the frame |
| Recommender.FilteredFacts | app/models/recommender.py:133-163 | the scored result over a listed set has the layout described under SmartSearch |
| Predictor.ClampRating | app/models/predictor.py:29 | the clamped rating is in [0, 10], equals the prediction inside that range, and is the nearer bound outside it |
| Predictor.ClampIdempotent | app/models/predictor.py:29 | clamping twice equals clamping once |
| Predictor.PredictRating | app/models/predictor.py:12-31 | the rating is in [0, 10] and equals the regressor's output on the six inputs whenever that is in range |
| Predictor.ValidateInputRanges | app/models/predictor.py:57-79 | the six checks give exactly the messages of the failed checks, in check order |
| Predictor.NoErrorsIffInRanges | app/models/predictor.py:57-79 | no errors exactly when all six inputs are in range |
| Predictor.ErrorsReportFailures | app/models/predictor.py:57-79 | each check's message is reported exactly when that check fails |
| Predictor.ErrorsInCheckOrder | app/models/predictor.py:57-79 | at most six messages, none repeated, in the order of the checks |
| Predictor.OnlyBudgetNegative | app/models/predictor.py:61-62 | a negative budget with every other input in range gives only the budget message |
| Predictor.Assign | app/models/predictor.py:43 | `d[key] = value` replaces the value of an existing key in place, or appends the key at the end |
| Predictor.Dict | app/models/predictor.py:41-43 | the built dict has distinct keys |
| Predictor.DictKeys | app/models/predictor.py:41-43 | its keys are exactly the feature names |
| Predictor.DictZip | app/models/predictor.py:41-43 | for distinct features the dict is the features paired with their importances, in order |
| Predictor.GetFeatureImportance | app/models/predictor.py:36-55 | fails exactly when there are fewer importances than features, with the error prefix; otherwise it gives the ranking |
| Predictor.RankingFacts | app/models/predictor.py:46-50 | the ranking lists the dict's entries by descending importance, and equal importances keep feature order |
| Predictor.ColumnsRanking | app/models/predictor.py:22-50 | for the six feature columns: six pairs, one per column with its importance, best first |

## Left out

- Unicode NFKD decomposition is left out, because it needs the Unicode tables. The model keeps only the step that drops non-ASCII characters, so a precomposed accented letter is dropped whole, not turned into its base letter. On input that is already decomposed the model and the source agree.
- `str.lower` is ASCII-only in the model, because Unicode case mapping needs the Unicode tables.
- Float parsing (`float()`, `int()`) enters as an already-parsed `Option`, because parsing text to numbers is library code. NaN is not represented: reals have no NaN.
- CSV reading, `ast.literal_eval` of the list columns and `pd.to_datetime` are left out. They are library parsing, so a raw row arrives already parsed.
- The dataset-path lookup and the file system are left out because they are I/O.
- TF-IDF vectorizing, cosine similarity and random-forest training enter as data or functions because they are numeric library code. `create_similarity_matrix`, `train_prediction_model`, `save_models`, `load_models` and `initialize_system` are left out for the same reason, and because they pickle to disk.
- DataFrame column projection (`df.iloc[...][[cols]]`) is left out. Results are shown as (row, score) pairs and rows as whole `Movie` values.
- rapidfuzz's `token_sort_ratio` is left out: it is arbitrary in the model, because its definition is library code. Only its range 0.0..100.0 is assumed. The exact-match lemmas also require that the strings they name score 100 against themselves. They do not assume that only equal strings score 100: other strings, such as a token permutation, may score 100 too, so an earlier key with a perfect score can win. The lemmas state when the input survives.
- `argsort`'s order among equal scores and Python's set iteration order are abstract functions. Beyond an ascending ordering and a listing of each member once, the model keeps no order. Ties in the filtered ranking therefore follow the set listing, not a proved order.
- Exception handlers that return `str(e)` are left out, because the exception texts come from the libraries.
- Predictor.GetFeatureImportance: the error is only the message prefix, because the exception text is not modelled. The only error path modelled is too few importances; a short importance array is the failure the code can meet.
- Predictor.PredictRating: the path where the regressor raises is left out, because the regressor is a total function in the model.
- `get_statistics` in the predictor is left out. It is aggregate reporting over the frame with pandas statistics, and is not used by the other operations.
- The GUI and the executable build script are left out, because they are presentation and packaging.
- `TextCorrector.__init__` and `_build_indexes` are modelled as one constructor, because `_build_indexes` is only called from `__init__`.
- Recommender.MovieRecommender.SearchRanked: stated for n >= 1 only. For n = 0, `argsort()[-0:]` is the whole ordering; ZeroRowsList gives the row count of that case, no rows without an exact match and N - 1 with one. Negative n is not stated.
- Recommender.MovieRecommender.SmartSearch: the layout is stated for top_n >= 0 only. For a negative top_n the source's slices count from the end; the model computes that case but states nothing about it.
- Recommender.MovieRecommender.RecommendationsRanked: stated for n >= 0 only, for the same reason.
- The rows the correctors index are positions of the frame, not pandas index labels. See the second finding.

## Findings

| source | as written | input that shows it | evidently intended | confidence | as-written member | corrected member |
|---|---|---|---|---|---|---|
| app/models/recommender.py:31-34 | sorts the whole similarity row and drops slot 0, assuming the query row is there | a row identical to an earlier one (two equal similarities of 1.0): the stable sort puts the earlier row first, so the list for the later row contains that row itself | leave out the query row itself, whatever the ties | not executed | Recommender.SelfRecommended | Recommender.RankExcludingSelfRows |
| app/utils/data_loader.py:43 | `drop_duplicates` keeps the original index labels. The text corrector's `iterrows` index and `.index[0]` use labels, but `iloc` and the similarity matrix use positions | ids 7, 7, 8: the kept rows carry labels 0 and 2, and label 2 is no position of the two-row frame | index rows by position (or reset the index) | not executed | DataLoader.DuplicateIdShiftsLabels | Corrector.NameIndexInRange |
