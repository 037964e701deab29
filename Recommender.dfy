/**
 * The recommendation engine of modules/recommender.py: the embedding cache checked at
 * construction, lemma sets, exclusion filtering over the nearest-neighbour pool, the
 * "all or a random sample" selection policy and the projection to result tuples.
 *
 * The sentence encoder, the spaCy pipeline and the character rules are values the engine
 * is built with; the neighbour search result and the random generator's choices are
 * inputs of `Recommend`.
 */
module Recommender {
  import opened Common
  import opened Text

  /** The number of neighbours asked of the nearest-neighbour index. */
  const PoolSize: nat := 50

  type Vector = seq<real>
  type Matrix = seq<Vector>

  /** One row of the review table. `title` is `None` where the table has no title. */
  datatype Review = Review(movieName: string, title: Option<string>, grade3: string, content: string)

  /** `(movie_name, title, grade3, content)` as returned to the caller. */
  datatype Recommendation = Recommendation(movieName: string, title: Option<string>, grade3: string, content: string)

  /** A token as the language pipeline reports it. */
  datatype Token = Token(baseForm: string, isSpace: bool, isPunct: bool)

  /** The `ValueError` of `random.sample` when the sample size is negative or too large. */
  datatype SampleError = SampleSizeOutOfRange

  /** A token that counts towards the lemma set: neither whitespace nor punctuation. */
  predicate IsWord(t: Token) {
    !t.isSpace && !t.isPunct
  }

  /** The lemmas of the word tokens, gathered from left to right. */
  function LemmasOfTokens(tokens: seq<Token>): set<string> {
    if tokens == [] then {}
    else (if IsWord(tokens[0]) then {tokens[0].baseForm} else {}) + LemmasOfTokens(tokens[1..])
  }

  /** A lemma is gathered exactly when some word token carries it. */
  lemma {:induction false} LemmasOfTokensMembers(tokens: seq<Token>)
    ensures forall w :: w in LemmasOfTokens(tokens) <==>
      exists t :: t in tokens && IsWord(t) && t.baseForm == w
  {
    if tokens != [] {
      LemmasOfTokensMembers(tokens[1..]);
      assert forall t :: t in tokens <==> t == tokens[0] || t in tokens[1..];
    }
  }

  /** The lemmas of two token runs are the lemmas of each run taken together. */
  lemma {:induction false} LemmasOfTokensAppend(a: seq<Token>, b: seq<Token>)
    ensures LemmasOfTokens(a + b) == LemmasOfTokens(a) + LemmasOfTokens(b)
  {
    if a == [] {
      assert a + b == b;
    } else {
      LemmasOfTokensAppend(a[1..], b);
      assert (a + b)[0] == a[0] && (a + b)[1..] == a[1..] + b;
    }
  }

  /** A whitespace or punctuation token, wherever it stands, adds no lemma. */
  lemma NonWordTokenIgnored(before: seq<Token>, t: Token, after: seq<Token>)
    requires !IsWord(t)
    ensures LemmasOfTokens(before + [t] + after) == LemmasOfTokens(before + after)
  {
    LemmasOfTokensAppend(before + [t], after);
    LemmasOfTokensAppend(before, [t]);
    LemmasOfTokensAppend(before, after);
    assert LemmasOfTokens([t]) == {} by {
      assert [t][1..] == [];
    }
  }

  function Project(row: Review): Recommendation {
    Recommendation(row.movieName, row.title, row.grade3, row.content)
  }

  /** What the encoder returns for a batch of review texts: one vector per row. */
  function EncodeContents(embed: string -> Vector, rows: seq<Review>): Matrix {
    seq(|rows|, i requires 0 <= i < |rows| => embed(rows[i].content))
  }

  /** The persisted embedding file: absent, or holding a matrix of any shape. */
  class EmbeddingStore {
    var saved: Option<Matrix>

    constructor (saved: Option<Matrix>)
      ensures this.saved == saved
    {
      this.saved := saved;
    }
  }

  /**
   * `random.sample(population, k)`. The generator's choices are the `draws`: the i-th pick
   * takes position `draws[i] % m` among the m elements not yet picked (a missing draw counts
   * as 0).
   */
  method Sample(population: seq<nat>, k: int, draws: seq<nat>) returns (r: Result<seq<nat>, SampleError>)
    ensures r.Failure? <==> k < 0 || k > |population|
    ensures r.Success? ==> |r.value| == k && multiset(r.value) <= multiset(population)
  {
    if k < 0 || k > |population| {
      return Failure(SampleSizeOutOfRange);
    }
    var pool := population;
    var picked: seq<nat> := [];
    var i := 0;
    while i < k
      invariant 0 <= i <= k
      invariant |picked| == i && |pool| == |population| - i
      invariant multiset(picked) + multiset(pool) == multiset(population)
    {
      var d := if i < |draws| then draws[i] else 0;
      var j := d % |pool|;
      assert pool == pool[..j] + [pool[j]] + pool[j + 1..];
      picked := picked + [pool[j]];
      pool := pool[..j] + pool[j + 1..];
      i := i + 1;
    }
    return Success(picked);
  }

  /**
   * The selection step of `recommend`: every survivor when fewer than `n` survive,
   * otherwise a sample of `n`.
   * A negative `n` reaches `random.sample`, which rejects it.
   */
  method SelectIndices(pool: seq<nat>, n: int, draws: seq<nat>) returns (r: Result<seq<nat>, SampleError>)
    requires Distinct(pool)
    ensures r.Failure? <==> n < 0
    ensures r.Success? ==>
      && |r.value| == Min(n, |pool|)
      && (|pool| < n ==> r.value == pool)
      && multiset(r.value) <= multiset(pool)
      && Distinct(r.value)
      && forall x :: x in r.value ==> x in pool
  {
    if |pool| < n {
      r := Success(pool);
    } else {
      r := Sample(pool, n, draws);
    }
    if r.Success? {
      SubBagOfDistinct(r.value, pool);
    }
  }

  class MovieRecommender {
    /** The review table; its row order gives the indices used everywhere else. */
    const data: seq<Review>
    /** The sentence encoder, text to vector. */
    const embed: string -> Vector
    /** The language pipeline, text to tokens. */
    const nlp: string -> seq<Token>
    const rules: CharRules
    /** Where the embedding matrix is persisted between runs. */
    const store: EmbeddingStore
    var embeddings: Matrix

    /** The embedding matrix has one row per review. */
    ghost predicate Valid()
      reads this
    {
      |embeddings| == |data|
    }

    /**
     * Loads the stored matrix when its row count matches the table and otherwise
     * recomputes and stores it. Either way the store afterwards holds exactly the
     * matrix in use, so building the engine again reuses it.
     */
    constructor (data: seq<Review>, store: EmbeddingStore, embed: string -> Vector,
                 nlp: string -> seq<Token>, rules: CharRules)
      modifies store
      ensures this.data == data && this.store == store
      ensures this.embed == embed && this.nlp == nlp && this.rules == rules
      ensures Valid()
      ensures store.saved == Some(embeddings)
      ensures old(store.saved).Some? && |old(store.saved).value| == |data| ==>
                embeddings == old(store.saved).value
      ensures !(old(store.saved).Some? && |old(store.saved).value| == |data|) ==>
                embeddings == EncodeContents(embed, data)
    {
      this.data := data;
      this.store := store;
      this.embed := embed;
      this.nlp := nlp;
      this.rules := rules;
      this.embeddings := [];
      new;
      if store.saved.Some? {
        embeddings := store.saved.value;
        if |embeddings| != |data| {
          CalculateAndSaveEmbeddings();
        }
      } else {
        CalculateAndSaveEmbeddings();
      }
    }

    /** Encodes every review text and saves the matrix before using it. */
    method CalculateAndSaveEmbeddings()
      modifies this`embeddings, store`saved
      ensures embeddings == EncodeContents(embed, data)
      ensures store.saved == Some(embeddings)
      ensures Valid()
    {
      var emb := EncodeContents(embed, data);
      store.saved := Some(emb);
      embeddings := emb;
    }

    /**
     * `_lemmas_set`: the lemmas of the word tokens of the lower-cased text. A lemma is in
     * the set exactly when some token that is neither whitespace nor punctuation carries it.
     */
    function Lemmas(text: string): (r: set<string>)
      ensures forall w :: w in r <==>
        exists t :: t in nlp(Lower(rules, text)) && IsWord(t) && t.baseForm == w
    {
      var tokens := nlp(Lower(rules, text));
      LemmasOfTokensMembers(tokens);
      LemmasOfTokens(tokens)
    }

    /** spaCy's document for the empty text has no tokens. */
    ghost predicate EmptyTextEmptyDoc() {
      nlp([]) == []
    }

    /** The empty text has no lemmas, given that the pipeline turns it into an empty document. */
    lemma EmptyTextNoLemmas()
      requires EmptyTextEmptyDoc()
      ensures Lemmas([]) == {}
    {
      assert Lower(rules, []) == [];
    }

    /** A text whose tokens are all whitespace or punctuation has no lemmas. */
    lemma NoWordTokensNoLemmas(text: string)
      requires forall t :: t in nlp(Lower(rules, text)) ==> !IsWord(t)
      ensures Lemmas(text) == {}
    {
      var tokens := nlp(Lower(rules, text));
      assert forall w :: w !in LemmasOfTokens(tokens) by {
        LemmasOfTokensMembers(tokens);
      }
    }

    /** `exclude_lemmas_list`: the lemma sets of the keywords, in keyword order, empty ones dropped. */
    function ExclusionSets(keywords: seq<string>): (sets: seq<set<string>>)
      ensures |sets| <= |keywords|
      ensures forall e :: e in sets ==> e != {}
    {
      if keywords == [] then []
      else
        var lemmas := Lemmas(keywords[|keywords| - 1]);
        ExclusionSets(keywords[..|keywords| - 1]) + (if lemmas != {} then [lemmas] else [])
    }

    /** Every exclusion set is the lemma set of a keyword, and every non-empty keyword lemma set is one. */
    lemma {:induction false} ExclusionSetsFromKeywords(keywords: seq<string>)
      ensures forall e :: e in ExclusionSets(keywords) ==> exists kw :: kw in keywords && Lemmas(kw) == e
      ensures forall kw :: kw in keywords && Lemmas(kw) != {} ==> Lemmas(kw) in ExclusionSets(keywords)
    {
      if keywords != [] {
        var init := keywords[..|keywords| - 1];
        ExclusionSetsFromKeywords(init);
        assert keywords == init + [keywords[|keywords| - 1]];
      }
    }

    /** Keywords whose lemma sets are all empty (or no keywords at all) exclude nothing. */
    lemma {:induction false} EmptyKeywordsContributeNothing(keywords: seq<string>)
      requires forall kw :: kw in keywords ==> Lemmas(kw) == {}
      ensures ExclusionSets(keywords) == []
    {
      if keywords != [] {
        var init := keywords[..|keywords| - 1];
        assert forall kw :: kw in init ==> kw in keywords;
        EmptyKeywordsContributeNothing(init);
      }
    }

    /** The exclusion sets of two keyword runs follow each other in keyword order. */
    lemma {:induction false} ExclusionSetsAppend(a: seq<string>, b: seq<string>)
      ensures ExclusionSets(a + b) == ExclusionSets(a) + ExclusionSets(b)
      decreases |b|
    {
      if b == [] {
        assert a + b == a;
      } else {
        var init := b[..|b| - 1];
        ExclusionSetsAppend(a, init);
        assert (a + b)[..|a + b| - 1] == a + init;
        assert (a + b)[|a + b| - 1] == b[|b| - 1];
      }
    }

    /** A keyword without lemmas (blank, or only whitespace and punctuation) changes nothing. */
    lemma BlankKeywordIgnored(before: seq<string>, kw: string, after: seq<string>)
      requires Lemmas(kw) == {}
      ensures ExclusionSets(before + [kw] + after) == ExclusionSets(before + after)
    {
      ExclusionSetsAppend(before + [kw], after);
      ExclusionSetsAppend(before, after);
      assert (before + [kw])[..|before|] == before;
    }

    predicate InRange(indices: seq<nat>) {
      forall i :: 0 <= i < |indices| ==> indices[i] < |data|
    }

    /** The review at `idx` collides with none of the exclusion sets. */
    predicate Kept(idx: nat, sets: seq<set<string>>)
      requires idx < |data|
    {
      forall k :: 0 <= k < |sets| ==> Lemmas(data[idx].content) !! sets[k]
    }

    /** Keeping a review against the exclusion sets is keeping it against every keyword. */
    lemma KeptIffNoKeywordCollides(idx: nat, keywords: seq<string>)
      requires idx < |data|
      ensures Kept(idx, ExclusionSets(keywords)) <==>
        forall kw :: kw in keywords ==> Lemmas(data[idx].content) !! Lemmas(kw)
    {
      var sets := ExclusionSets(keywords);
      ExclusionSetsFromKeywords(keywords);
      if Kept(idx, sets) {
        forall kw | kw in keywords
          ensures Lemmas(data[idx].content) !! Lemmas(kw)
        {
          if Lemmas(kw) != {} {
            var k :| 0 <= k < |sets| && sets[k] == Lemmas(kw);
          }
        }
      }
    }

    /** `filtered_indices`: the pool's indices whose reviews are kept, in pool order. */
    function Filtered(pool: seq<nat>, sets: seq<set<string>>): (kept: seq<nat>)
      requires InRange(pool)
      ensures |kept| <= |pool|
      ensures InRange(kept)
    {
      if pool == [] then []
      else
        var last := pool[|pool| - 1];
        Filtered(pool[..|pool| - 1], sets) + (if Kept(last, sets) then [last] else [])
    }

    /** An index survives exactly when it is in the pool and its review collides with no exclusion set. */
    lemma {:induction false} FilteredMembers(pool: seq<nat>, sets: seq<set<string>>)
      requires InRange(pool)
      ensures forall x :: x in Filtered(pool, sets) <==> x in pool && x < |data| && Kept(x, sets)
    {
      if pool != [] {
        var init := pool[..|pool| - 1];
        var last := pool[|pool| - 1];
        FilteredMembers(init, sets);
        assert pool == init + [last];
        assert Filtered(pool, sets) == Filtered(init, sets) + (if Kept(last, sets) then [last] else []);
      }
    }

    /** Filtering keeps the surviving indices in their original order. */
    lemma {:induction false} FilteredIsSubsequence(pool: seq<nat>, sets: seq<set<string>>)
      requires InRange(pool)
      ensures IsSubsequence(Filtered(pool, sets), pool)
    {
      if pool == [] {
        assert Filtered(pool, sets) == [];
        EmptyIsSubsequence(pool);
      } else {
        var init := pool[..|pool| - 1];
        var last := pool[|pool| - 1];
        var before := Filtered(init, sets);
        FilteredIsSubsequence(init, sets);
        SubsequenceExtend(before, init, last);
        assert init + [last] == pool;
        if Kept(last, sets) {
          assert Filtered(pool, sets) == before + [last];
        } else {
          assert Filtered(pool, sets) == before;
        }
      }
    }

    /** Filtering a pool without repetitions gives a list without repetitions. */
    lemma {:induction false} FilteredDistinct(pool: seq<nat>, sets: seq<set<string>>)
      requires InRange(pool) && Distinct(pool)
      ensures Distinct(Filtered(pool, sets))
    {
      if pool != [] {
        var init := pool[..|pool| - 1];
        FilteredDistinct(init, sets);
        FilteredMembers(init, sets);
        assert pool[|pool| - 1] !in init;
      }
    }

    /** With no exclusion sets every candidate survives. */
    lemma {:induction false} FilteredNothingExcluded(pool: seq<nat>)
      requires InRange(pool)
      ensures Filtered(pool, []) == pool
    {
      if pool != [] {
        var init := pool[..|pool| - 1];
        FilteredNothingExcluded(init);
        assert Kept(pool[|pool| - 1], []);
        assert pool == init + [pool[|pool| - 1]];
      }
    }

    /** When no keyword has lemmas (in particular with no keywords) the filter keeps the whole pool. */
    lemma NoEffectiveKeywordsKeepPool(pool: seq<nat>, keywords: seq<string>)
      requires InRange(pool)
      requires forall kw :: kw in keywords ==> Lemmas(kw) == {}
      ensures Filtered(pool, ExclusionSets(keywords)) == pool
    {
      EmptyKeywordsContributeNothing(keywords);
      FilteredNothingExcluded(pool);
    }

    /** The first loop of `recommend`: collects the non-empty keyword lemma sets. */
    method ExcludeLemmasList(keywords: seq<string>) returns (sets: seq<set<string>>)
      ensures sets == ExclusionSets(keywords)
    {
      sets := [];
      for i := 0 to |keywords|
        invariant sets == ExclusionSets(keywords[..i])
      {
        assert keywords[..i + 1][..i] == keywords[..i];
        var lemmas := Lemmas(keywords[i]);
        if lemmas != {} {
          sets := sets + [lemmas];
        }
      }
      assert keywords[..|keywords|] == keywords;
    }

    /** The filter loop of `recommend`: drops every candidate colliding with some exclusion set. */
    method FilterCandidates(pool: seq<nat>, sets: seq<set<string>>) returns (kept: seq<nat>)
      requires InRange(pool)
      ensures kept == Filtered(pool, sets)
    {
      kept := [];
      for i := 0 to |pool|
        invariant kept == Filtered(pool[..i], sets)
      {
        assert pool[..i + 1][..i] == pool[..i];
        var idx := pool[i];
        var textLemmas := Lemmas(data[idx].content);
        var shouldExclude := false;
        var k := 0;
        while k < |sets|
          invariant 0 <= k <= |sets|
          invariant !shouldExclude
          invariant forall j :: 0 <= j < k ==> textLemmas !! sets[j]
        {
          if textLemmas * sets[k] != {} {
            shouldExclude := true;
            break;
          }
          assert textLemmas !! sets[k] by {
            forall w | w in textLemmas
              ensures w !in sets[k]
            {
              assert w !in textLemmas * sets[k];
            }
          }
          k := k + 1;
        }
        assert shouldExclude <==> !Kept(idx, sets);
        if !shouldExclude {
          kept := kept + [idx];
        }
      }
      assert pool[..|pool|] == pool;
    }

    /**
     * What the nearest-neighbour index, fitted on the embedding matrix, answers for a query:
     * `PoolSize` distinct row numbers of that matrix. The index refuses to answer when the
     * matrix has fewer than `PoolSize` rows.
     */
    ghost predicate IndexAnswer(neighbors: seq<nat>)
      reads this
      ensures IndexAnswer(neighbors) && Valid() ==> InRange(neighbors)
    {
      && PoolSize <= |embeddings|
      && |neighbors| == PoolSize
      && Distinct(neighbors)
      && forall i :: 0 <= i < |neighbors| ==> neighbors[i] < |embeddings|
    }

    /**
     * `recommend`: filters the neighbour pool by the exclusion keywords, keeps every
     * survivor when fewer than `n` survive and otherwise samples `n` of them, and projects
     * the chosen rows. `selected` returns the row indices behind the result, which the
     * source keeps only as a local list.
     */
    method Recommend(n: int, excludeKeywords: seq<string>, neighbors: seq<nat>, draws: seq<nat>)
      returns (r: Result<seq<Recommendation>, SampleError>, selected: seq<nat>)
      requires Valid()
      requires IndexAnswer(neighbors)
      ensures var pool := Filtered(neighbors, ExclusionSets(excludeKeywords));
        && |pool| <= PoolSize
        && (r.Failure? <==> n < 0)
        && (r.Success? ==>
              && |r.value| == |selected| == Min(n, |pool|)
              && (|pool| < n ==> selected == pool)
              && multiset(selected) <= multiset(pool)
              && Distinct(selected))
      ensures r.Success? ==> forall i :: 0 <= i < |selected| ==>
        && selected[i] in neighbors
        && r.value[i] == Project(data[selected[i]])
        && forall kw :: kw in excludeKeywords ==> Lemmas(r.value[i].content) !! Lemmas(kw)
    {
      assert InRange(neighbors);
      var sets := ExcludeLemmasList(excludeKeywords);
      var pool := FilterCandidates(neighbors, sets);
      FilteredDistinct(neighbors, sets);
      var selection := SelectIndices(pool, n, draws);
      if selection.Failure? {
        return Failure(selection.error), [];
      }
      var chosen := selection.value;
      FilteredMembers(neighbors, sets);
      assert InRange(chosen) by {
        forall i | 0 <= i < |chosen|
          ensures chosen[i] < |data|
        {
          assert chosen[i] in pool;
        }
      }
      var recommendations := ProjectRows(chosen);
      forall i | 0 <= i < |chosen|
        ensures forall kw :: kw in excludeKeywords ==> Lemmas(recommendations[i].content) !! Lemmas(kw)
      {
        assert chosen[i] in pool;
        KeptIffNoKeywordCollides(chosen[i], excludeKeywords);
      }
      return Success(recommendations), chosen;
    }

    /** The projection loop of `recommend`: one `(movie_name, title, grade3, content)` tuple per chosen row, in order. */
    method ProjectRows(chosen: seq<nat>) returns (recommendations: seq<Recommendation>)
      requires InRange(chosen)
      ensures |recommendations| == |chosen|
      ensures forall i :: 0 <= i < |chosen| ==> recommendations[i] == Project(data[chosen[i]])
    {
      recommendations := [];
      for i := 0 to |chosen|
        invariant |recommendations| == i
        invariant forall j :: 0 <= j < i ==> recommendations[j] == Project(data[chosen[j]])
      {
        var row := data[chosen[i]];
        recommendations := recommendations + [Recommendation(row.movieName, row.title, row.grade3, row.content)];
      }
    }
  }

  /** Building the engine a second time over the same table and store reuses the matrix the first one left. */
  method ReopenReusesEmbeddings(data: seq<Review>, store: EmbeddingStore, embed: string -> Vector,
                                nlp: string -> seq<Token>, rules: CharRules)
    returns (first: MovieRecommender, second: MovieRecommender)
    modifies store
    ensures first.Valid() && second.Valid()
    ensures first.embeddings == second.embeddings
    ensures store.saved == Some(first.embeddings)
  {
    first := new MovieRecommender(data, store, embed, nlp, rules);
    second := new MovieRecommender(data, store, embed, nlp, rules);
  }
}
