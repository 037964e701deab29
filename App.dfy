/**
 * The "Recommend" button handler of app.py: parsing the exclusion field, the guards on
 * the query and the count, and refilling the result list and `review_dict`.
 * The window widgets are reduced to the texts they hold and the state they show.
 */
module App {
  import opened Common
  import opened Text
  import opened Recommender

  /** A keyword as the handler passes it on: non-empty, no whitespace at either end, lower-case. */
  ghost predicate Normalized(rules: CharRules, k: string) {
    && k != []
    && !rules.isSpace(k[0]) && !rules.isSpace(k[|k| - 1])
    && Lower(rules, k) == k
  }

  /**
   * One comma-separated piece as a keyword: stripped and lower-cased, or none when the
   * piece is blank.
   */
  function KeywordOf(rules: CharRules, piece: string): (r: seq<string>)
    ensures |r| <= 1
    ensures r == [] <==> forall k :: 0 <= k < |piece| ==> rules.isSpace(piece[k])
    ensures rules.Valid() ==> forall k :: k in r ==> Normalized(rules, k)
  {
    var kw := Strip(rules, piece);
    if kw != [] then
      LowerStrippedNormalized(rules, kw);
      [Lower(rules, kw)]
    else []
  }

  /** Lower-casing a text that starts and ends with a non-space character gives a normalized keyword. */
  lemma LowerStrippedNormalized(rules: CharRules, kw: string)
    requires kw != [] && !rules.isSpace(kw[0]) && !rules.isSpace(kw[|kw| - 1])
    ensures rules.Valid() ==> Normalized(rules, Lower(rules, kw))
  {
    if rules.Valid() {
      LowerIdempotent(rules, kw);
      var k := Lower(rules, kw);
      assert k[0] == rules.lower(kw[0]) && k[|k| - 1] == rules.lower(kw[|kw| - 1]);
    }
  }

  /** The comma-separated pieces as keywords, in piece order. */
  function Keywords(rules: CharRules, pieces: seq<string>): seq<string> {
    FlatMap(KeywordRule(rules), pieces)
  }

  function KeywordRule(rules: CharRules): string -> seq<string> {
    piece => KeywordOf(rules, piece)
  }

  /** There are no more keywords than pieces, and under valid rules every keyword is normalized. */
  lemma {:induction false} KeywordsNormalized(rules: CharRules, pieces: seq<string>)
    ensures |Keywords(rules, pieces)| <= |pieces|
    ensures rules.Valid() ==> forall k :: k in Keywords(rules, pieces) ==> Normalized(rules, k)
  {
    if pieces != [] {
      KeywordsNormalized(rules, pieces[1..]);
      var rule := KeywordRule(rules);
      assert Keywords(rules, pieces) == rule(pieces[0]) + Keywords(rules, pieces[1..]);
      assert rule(pieces[0]) == KeywordOf(rules, pieces[0]);
    }
  }

  /**
   * The exclusion field's text as the keyword list handed to `recommend`: at most one
   * keyword per comma-separated piece, each one normalized.
   */
  function ParseKeywords(rules: CharRules, text: string): (r: seq<string>)
    ensures |r| <= |Split(text, ',')|
    ensures rules.Valid() ==> forall k :: k in r ==> Normalized(rules, k)
  {
    KeywordsNormalized(rules, Split(text, ','));
    Keywords(rules, Split(text, ','))
  }

  /** The keywords of `x,y` are those of `x` followed by those of `y`. */
  lemma ParseKeywordsConcat(rules: CharRules, x: string, y: string)
    ensures ParseKeywords(rules, x + [','] + y) == ParseKeywords(rules, x) + ParseKeywords(rules, y)
  {
    SplitAppend(x, y, ',');
    FlatMapAppend(KeywordRule(rules), Split(x, ','), Split(y, ','));
  }

  /** Text without commas gives at most one keyword: the stripped, lower-cased text unless it is blank. */
  lemma ParseKeywordsNoComma(rules: CharRules, text: string)
    requires ',' !in text
    ensures ParseKeywords(rules, text) ==
      if Strip(rules, text) == [] then [] else [Lower(rules, Strip(rules, text))]
  {
    SplitNoSeparator(text, ',');
    var pieces := Split(text, ',');
    var rule := KeywordRule(rules);
    assert pieces[0] == text && pieces[1..] == [];
    assert FlatMap(rule, pieces) == rule(text) + FlatMap(rule, []);
    assert rule(text) == KeywordOf(rules, text);
  }

  /** The list-box line for one recommendation: the movie name and its grade in parentheses. */
  function DisplayText(rec: Recommendation): (line: string)
    ensures |line| == |rec.movieName| + |rec.grade3| + 3
    ensures line[..|rec.movieName|] == rec.movieName
    ensures line[|rec.movieName|..|rec.movieName| + 2] == " ("
    ensures line[|rec.movieName| + 2..|line| - 1] == rec.grade3
    ensures line[|line| - 1] == ')'
  {
    rec.movieName + " (" + rec.grade3 + ")"
  }

  /** The result list box together with the `review_dict` the selection handler reads. */
  class ResultList {
    var lines: seq<string>
    var reviews: map<int, string>

    constructor ()
      ensures lines == [] && reviews == map[]
    {
      lines := [];
      reviews := map[];
    }

    /** Clears both, then adds one line and one review per recommendation, in result order. */
    method Show(recs: seq<Recommendation>)
      modifies this
      ensures |lines| == |recs|
      ensures forall i :: 0 <= i < |recs| ==> lines[i] == DisplayText(recs[i])
      ensures forall k :: k in reviews <==> 0 <= k < |recs|
      ensures forall i :: 0 <= i < |recs| ==> reviews[i] == recs[i].content
    {
      lines := [];
      reviews := map[];
      for i := 0 to |recs|
        invariant |lines| == i
        invariant forall j :: 0 <= j < i ==> lines[j] == DisplayText(recs[j])
        invariant forall k :: k in reviews <==> 0 <= k < i
        invariant forall j :: 0 <= j < i ==> reviews[j] == recs[j].content
      {
        lines := lines + [DisplayText(recs[i])];
        reviews := reviews[i := recs[i].content];
      }
    }
  }

  /** How a click ends: a warning, an exception out of `recommend`, or new results on screen. */
  datatype Outcome = MissingQuery | InvalidCount | Raised(error: SampleError) | Shown

  /**
   * `on_recommend_button_click`. `neighbors` is the index's answer for the query and `draws`
   * the random generator's choices; `shown` are the recommendations put on screen.
   */
  method OnRecommendButtonClick(queryText: string, countText: string, excludeText: string,
                                recommender: MovieRecommender, view: ResultList,
                                neighbors: seq<nat>, draws: seq<nat>)
    returns (outcome: Outcome, ghost shown: seq<Recommendation>)
    requires recommender.Valid()
    requires recommender.IndexAnswer(neighbors)
    modifies view
    ensures var rules := recommender.rules;
      && (outcome == MissingQuery <==> Strip(rules, queryText) == [])
      && (outcome == InvalidCount <==> Strip(rules, queryText) != [] && ParseInt(rules, countText).None?)
      && (outcome.Raised? <==>
            Strip(rules, queryText) != [] && ParseInt(rules, countText).Some? && ParseInt(rules, countText).value < 0)
    ensures outcome != Shown ==> unchanged(view)
    ensures outcome == Shown ==>
      var rules := recommender.rules;
      var keywords := ParseKeywords(rules, excludeText);
      var pool := recommender.Filtered(neighbors, recommender.ExclusionSets(keywords));
      && |shown| == Min(ParseInt(rules, countText).value, |pool|)
      && (forall i, kw :: 0 <= i < |shown| && kw in keywords ==>
            recommender.Lemmas(shown[i].content) !! recommender.Lemmas(kw))
      && |view.lines| == |shown|
      && (forall i :: 0 <= i < |shown| ==> view.lines[i] == DisplayText(shown[i]))
      && (forall k :: k in view.reviews <==> 0 <= k < |shown|)
      && (forall i :: 0 <= i < |shown| ==> view.reviews[i] == shown[i].content)
  {
    var rules := recommender.rules;
    var query := Strip(rules, queryText);
    var excludeKeywords := ParseKeywords(rules, excludeText);
    shown := [];
    if query == [] {
      return MissingQuery, shown;
    }
    var count := ParseInt(rules, countText);
    if count.None? {
      return InvalidCount, shown;
    }
    var result, _ := recommender.Recommend(count.value, excludeKeywords, neighbors, draws);
    if result.Failure? {
      return Raised(result.error), shown;
    }
    var recommendations := result.value;
    view.Show(recommendations);
    shown := recommendations;
    return Shown, shown;
  }
}
