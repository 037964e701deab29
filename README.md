# Movie recommender: verified model of the recommendation engine

This project models the core of a desktop movie recommender. The user types a free-text
description of a movie. The engine encodes it, takes the 50 nearest reviews by cosine
similarity, and drops every review whose lemmas meet the lemmas of an exclusion keyword.
It then returns either all survivors or a random sample of the requested size, as
`(movie_name, title, grade3, content)` tuples. The button handler in `app.py` parses the
comma-separated exclusion field and guards against an empty query and a count that is not
an integer. It then refills the result list and the `review_dict` that maps list positions
to review texts.

Files:

- `Common.dfy`: `Option`, `Result`, `Min`, distinctness, order-preserving subsequences,
  flat-map, and the fact that a sample without replacement from a list without repetitions
  repeats nothing.
- `Text.dfy`: `str.strip()`, `str.lower()`, `str.split(',')` with its inverse `join`, and
  `int(text)` with its inverse `str(n)`. Unicode lower-casing and the whitespace table are
  given as `CharRules`.
- `Recommender.dfy`: the `MovieRecommender` class (embedding cache check at construction,
  `_lemmas_set`, `recommend` with its exclusion list, filter loop, selection and projection
  loop), the persisted embedding file as an `EmbeddingStore` object, and `random.sample`.
- `App.dfy`: keyword parsing, the `ResultList` (list box plus `review_dict`), and
  `on_recommend_button_click`.

External collaborators become values:

- The sentence encoder is `embed: string -> seq<real>`. A batch encode is one vector per text.
- The spaCy pipeline is `nlp: string -> seq<Token>`. Each token carries its lemma and its
  `is_space`/`is_punct` flags.
- The nearest-neighbour search result is the `neighbors` input of `Recommend`: 50 distinct
  row indices.
- The random generator's choices are the `draws` input.

## Model

| member | source | states |
|---|---|---|
| `Recommender.MovieRecommender.constructor` | modules/recommender.py:15-39 | The matrix afterwards has one row per review. A stored matrix with the right row count is used unchanged. Otherwise every review's content is encoded and the result is stored. In both cases the store ends up holding exactly the matrix in use. |
| `Recommender.MovieRecommender.CalculateAndSaveEmbeddings` | modules/recommender.py:49-67 | Row i of the new matrix is the encoding of review i's content. The same matrix is written to the store. |
| `Recommender.ReopenReusesEmbeddings` | modules/recommender.py:27-39 | Building the engine twice over the same table and store gives two identical matrices with one row per review, and the store holds that matrix. The first build leaves a matrix of the right size in the store, so the second build reuses it. |
| `Recommender.MovieRecommender.Lemmas` | modules/recommender.py:69-73 | A lemma is in a text's lemma set exactly when some token of the lower-cased text carries it and is neither whitespace nor punctuation. The set is built by walking the tokens. |
| `Recommender.LemmasOfTokensMembers` | modules/recommender.py:73 | Walking the tokens gathers exactly the lemmas of the word tokens. |
| `Recommender.LemmasOfTokensAppend` | modules/recommender.py:73 | The lemmas of two token runs together are the union of the lemmas of each run. |
| `Recommender.NonWordTokenIgnored` | modules/recommender.py:73 | A whitespace or punctuation token adds no lemma, wherever it stands. |
| `Recommender.MovieRecommender.NoWordTokensNoLemmas` | modules/recommender.py:72-73 | A text whose tokens are all whitespace or punctuation has an empty lemma set. |
| `Recommender.MovieRecommender.EmptyTextNoLemmas` | modules/recommender.py:72-73 | The empty text has an empty lemma set, given that the pipeline turns the empty text into a document without tokens. |
| `Recommender.MovieRecommender.ExclusionSets` | modules/recommender.py:90-94 | The exclusion list has at most one entry per keyword, and none of its entries is empty. |
| `Recommender.MovieRecommender.ExcludeLemmasList` | modules/recommender.py:90-94 | The loop builds exactly the non-empty keyword lemma sets, in keyword order. |
| `Recommender.MovieRecommender.ExclusionSetsFromKeywords` | modules/recommender.py:91-94 | Each exclusion set is the lemma set of some keyword. Every keyword with a non-empty lemma set is represented. |
| `Recommender.MovieRecommender.EmptyKeywordsContributeNothing` | modules/recommender.py:91-94 | When no keyword has lemmas (or there are no keywords) the exclusion list is empty. |
| `Recommender.MovieRecommender.ExclusionSetsAppend` | modules/recommender.py:90-94 | The exclusion list of two keyword runs is the first run's list followed by the second's. |
| `Recommender.MovieRecommender.BlankKeywordIgnored` | modules/recommender.py:92-94 | Inserting a keyword without lemmas anywhere in the list leaves the exclusion list unchanged. |
| `Recommender.MovieRecommender.KeptIffNoKeywordCollides` | modules/recommender.py:104-109 | A review passes the exclusion sets exactly when its lemmas are disjoint from every keyword's lemmas. One colliding keyword is enough to drop it. |
| `Recommender.MovieRecommender.Filtered` | modules/recommender.py:97-113 | The filtered list is no longer than the pool and holds only row indices of the table. |
| `Recommender.MovieRecommender.FilteredMembers` | modules/recommender.py:97-113 | An index is in the filtered list exactly when it is in the pool and its review's lemmas are disjoint from every exclusion set. |
| `Recommender.MovieRecommender.FilterCandidates` | modules/recommender.py:97-113 | The loop with the `should_exclude` flag and the early `break` computes exactly the filtered list. The break does not change the outcome. |
| `Recommender.MovieRecommender.FilteredIsSubsequence` | modules/recommender.py:97-113 | The filtered list is an order-preserving subsequence of the neighbour pool. |
| `Recommender.MovieRecommender.FilteredDistinct` | modules/recommender.py:98-113 | Filtering a pool without repeated indices gives a list without repeated indices. |
| `Recommender.MovieRecommender.FilteredNothingExcluded` | modules/recommender.py:104-113 | With an empty exclusion list the filtered list is the pool itself. |
| `Recommender.MovieRecommender.NoEffectiveKeywordsKeepPool` | modules/recommender.py:90-113 | With no keywords, or only keywords without lemmas, the filtered list equals the neighbour list exactly. |
| `Recommender.Sample` | modules/recommender.py:119 | `random.sample` fails exactly when the size is negative or larger than the population. Otherwise it returns exactly k elements, drawn without replacement from the population. |
| `Recommender.SelectIndices` | modules/recommender.py:116-119 | A negative count is rejected. Otherwise the selection has `min(n, len(pool))` indices. When fewer than n survive it is the whole pool in pool order. Its indices are drawn without replacement from the pool and are pairwise distinct. |
| `Common.SubBagOfDistinct` | modules/recommender.py:116-119 | A sample without replacement from a list without repetitions has no repetitions, and every element comes from that list. |
| `Recommender.MovieRecommender.Recommend` | modules/recommender.py:75-132 | The engine has one embedding row per review, and the neighbour pool is 50 distinct row numbers of that matrix. A negative count is an error. Otherwise the result has `min(n, len(filtered))` entries, and the filtered list has at most 50. With fewer survivors than requested, the whole filtered list is returned in neighbour order. Otherwise n distinct survivors are sampled. Entry i is the projection of its row, which lies in the neighbour pool. No entry's lemmas meet any keyword's lemmas. |
| `Recommender.MovieRecommender.ProjectRows` | modules/recommender.py:122-132 | Result i is the `(movie_name, title, grade3, content)` projection of the row at the i-th selected index. |
| `Text.Strip` | app.py:35-36 | The stripped text is a contiguous middle part of the input, with only whitespace removed on either side. It is empty exactly when the input is all whitespace. Otherwise it starts and ends with a non-whitespace character. |
| `Text.Split` | app.py:36 | Splitting on the comma gives at least one piece, and no piece contains a comma. |
| `Text.JoinSplit` | app.py:36 | Joining the pieces of a split with the separator gives back the input. |
| `Text.SplitJoin` | app.py:36 | Splitting the join of separator-free pieces gives back those pieces. |
| `Text.SplitAppend` | app.py:36 | The pieces of `x,y` are the pieces of `x` followed by the pieces of `y`. |
| `Text.SplitNoSeparator` | app.py:36 | Text without a comma is a single piece. |
| `Text.LowerIdempotent` | app.py:36 | Lower-casing an already lower-cased text changes nothing. |
| `App.KeywordOf` | app.py:36 | One comma-separated piece gives at most one keyword. It gives none exactly when the piece is all whitespace. Under valid character rules the keyword is non-empty, has no whitespace at either end, and is lower-case. |
| `App.KeywordsNormalized` | app.py:36 | There are at most as many keywords as pieces. Under valid character rules every keyword is non-empty, has no leading or trailing whitespace, and is lower-case. |
| `App.ParseKeywords` | app.py:36 | The exclusion field gives at most one keyword per comma-separated piece. Under valid character rules each keyword is non-empty, has no whitespace at either end, and is lower-case. |
| `App.ParseKeywordsConcat` | app.py:36 | The keywords of `x,y` are those of `x` followed by those of `y`: parsing keeps left-to-right order and drops blank pieces. |
| `App.ParseKeywordsNoComma` | app.py:36 | Text without commas gives no keyword when it is blank. Otherwise it gives the single stripped, lower-cased text. |
| `Text.ParseInt` | app.py:42-46 | The count parses exactly when its stripped text is an optional sign followed by between 1 and 4300 decimal digits. Otherwise the handler takes the `ValueError` path. |
| `Text.ParseShowInt` | app.py:43 | The decimal text of any integer that `str` can print (at most 4300 digits) parses back to that integer. |
| `App.DisplayText` | app.py:55 | The list line is the movie name, then ` (`, then the grade, then `)`. |
| `App.ResultList.Show` | app.py:51-57 | After the refill there is one list line per recommendation, in result order. Line i is `movie_name (grade3)`. The keys of `review_dict` are exactly `0..len-1`, so old entries are gone. Key i maps to the content of recommendation i. |
| `App.OnRecommendButtonClick` | app.py:27-57 | The engine and the neighbour pool satisfy what `Recommend` needs. A blank query ends with a warning. A count that does not parse ends with a warning. A negative count ends with `random.sample`'s error. In these three cases the list and `review_dict` are untouched. Otherwise the result size is `min(count, len(filtered))` under the parsed keywords, no shown review meets a keyword, and the list and `review_dict` show exactly the results. |

## Left out

- Encoding: the SentenceTransformer model and the encoding of the query are not modelled. The encoder is a function from text to vector. Batching and the tensor-to-numpy conversion are not represented.
- Neighbour search: sklearn's cosine nearest-neighbour search (fitting and `kneighbors`) is not modelled. Its answer is the `neighbors` input: 50 distinct row numbers of the embedding matrix the index was fitted on. Since that matrix has one row per review, they are also rows of the table. The code always asks for 50. The library raises an error on a matrix with fewer rows, so the model requires at least 50 embedding rows rather than inventing a shorter pool. Distance ties are not modelled.
- Recommender.MovieRecommender.EmptyTextNoLemmas: the empty text has no lemmas only on the assumption that the pipeline returns no tokens for it, as spaCy's empty document does. The pipeline is an arbitrary function, so this is a precondition and not a derived fact.
- The spaCy pipeline is not modelled. Tokenisation and lemmatisation are the `nlp` function, and its tokens carry the `is_space`/`is_punct` flags.
- Lower-casing is a per-character map and stripping uses a per-character whitespace test, both given as `CharRules`. Unicode lower-casings that change a string's length are not represented, and neither are context-dependent ones such as the final-sigma rule.
- Text.ParseInt: `int()` also accepts underscores between digits and non-ASCII decimal digits. The model does not, so it rejects a few texts that Python accepts. The 4300-digit limit is CPython's default. A changed `sys.set_int_max_str_digits` setting is not modelled.
- Recommender.Sample: CPython fills the hole left by a drawn element with the last one, or uses a set-based method for large populations. The model closes the hole by shifting. The draws are arbitrary, so this changes which draw picks which element, not what can be picked. Uniformity of the distribution is not modelled.
- Persistence and logging: `np.save`/`np.load` are not modelled. The embedding file is the `saved` field of `EmbeddingStore`. The `print` logging is left out.
- Cache validation compares row counts only. A stored matrix with the right number of rows but stale content is kept. The model states exactly this.
- Grade: `grade3` is carried as its text, since the display line formats it into a string. Its type in the table is not modelled.
- Errors: when `recommend` raises inside the handler, the model returns `Raised` and leaves the view untouched. Tkinter's reporting of the uncaught exception is not modelled.
- UI: window construction, widgets, `messagebox`, icon loading, `show_info`, `on_recommendation_select` and `main` (app.py:10-25, 59-149) are user interface with no algorithmic content. They are not modelled.
- `modules/data_utils.py` downloads the dataset and builds the table. It is not part of this model.
- Counts and small tables: a count of 0 is accepted and gives an empty result. Only a negative count fails, and it fails inside `random.sample`. With fewer than 50 embedding rows the neighbour search raises instead of returning a shorter pool, and that case is outside the model.
