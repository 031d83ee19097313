/** `ranking.py`: the lexical scorer `relevance_score_keyword`, the lexical
    filter `keyword_match`, and `rank_articles` with its keyword-embedding
    cache. */
module Ranking {
  import opened Articles
  import opened Text

  // ---------------------------------------------------------------------
  // Lexical score

  /** Points for one keyword word: 3 when it occurs in the title, otherwise 1
      when it occurs in the summary, otherwise nothing (never both). */
  function WordPoints(title: string, summary: string, w: string): (r: int)
    ensures r == 3 <==> Contains(title, w)
    ensures r == 1 <==> !Contains(title, w) && Contains(summary, w)
    ensures r == 0 <==> !Contains(title, w) && !Contains(summary, w)
  {
    if Contains(title, w) then 3 else if Contains(summary, w) then 1 else 0
  }

  /** The word bonus summed over `ws`, in order. */
  function WordsPoints(title: string, summary: string, ws: seq<string>): (r: int)
    decreases |ws|
  {
    if ws == [] then 0
    else WordsPoints(title, summary, ws[..|ws| - 1]) + WordPoints(title, summary, ws[|ws| - 1])
  }

  /** Points for the whole keyword phrase: 10 in the title, 5 in the summary. */
  function PhrasePoints(title: string, summary: string, phrase: string): (r: int) {
    (if Contains(title, phrase) then 10 else 0) + (if Contains(summary, phrase) then 5 else 0)
  }

  /** The lexical subscore of `relevance_score_keyword`, over the lower-cased
      title, summary and keyword. */
  function KeywordScore(a: Article, keyword: string): (r: int)
    // between 0 and 15 plus 3 per keyword word
    ensures 0 <= r <= 15 + 3 * |Words(Lower(keyword))|
  {
    var title := Lower(a.title);
    var summary := Lower(a.summary);
    var kw := Lower(keyword);
    WordsPointsBounds(title, summary, Words(kw));
    PhrasePoints(title, summary, kw) + WordsPoints(title, summary, Words(kw))
  }

  /** `relevance_score_keyword`: accumulates the phrase bonus and then the
      per-word bonus in a loop. */
  method RelevanceScoreKeyword(article: Article, keyword: string) returns (score: int)
    ensures score == KeywordScore(article, keyword)
  {
    var title := Lower(article.title);
    var summary := Lower(article.summary);
    var kw := Lower(keyword);
    score := 0;
    if Contains(title, kw) { score := score + 10; }
    if Contains(summary, kw) { score := score + 5; }
    var bonus := WordBonus(title, summary, Words(kw));
    score := score + bonus;
  }

  /** The per-word loop of `relevance_score_keyword`. */
  method WordBonus(title: string, summary: string, words: seq<string>) returns (points: int)
    ensures points == WordsPoints(title, summary, words)
  {
    points := 0;
    for i := 0 to |words|
      invariant points == WordsPoints(title, summary, words[..i])
    {
      var w := words[i];
      WordsPointsStep(title, summary, words, i);
      if Contains(title, w) {
        points := points + 3;
      } else if Contains(summary, w) {
        points := points + 1;
      }
    }
    assert words[..|words|] == words;
  }

  lemma WordsPointsStep(title: string, summary: string, ws: seq<string>, i: nat)
    requires i < |ws|
    ensures WordsPoints(title, summary, ws[..i + 1]) == WordsPoints(title, summary, ws[..i]) + WordPoints(title, summary, ws[i])
  {
    assert ws[..i + 1][..i] == ws[..i];
  }

  lemma {:induction false} WordsPointsBounds(title: string, summary: string, ws: seq<string>)
    ensures 0 <= WordsPoints(title, summary, ws) <= 3 * |ws|
    decreases |ws|
  {
    if ws != [] {
      WordsPointsBounds(title, summary, ws[..|ws| - 1]);
    }
  }

  /** When every word occurs in the title, each word earns the full 3. */
  lemma {:induction false} WordsPointsAllInTitle(title: string, summary: string, ws: seq<string>)
    requires forall k :: 0 <= k < |ws| ==> Contains(title, ws[k])
    ensures WordsPoints(title, summary, ws) == 3 * |ws|
    decreases |ws|
  {
    if ws != [] {
      WordsPointsAllInTitle(title, summary, ws[..|ws| - 1]);
    }
  }

  /** A title that contains the keyword phrase earns the phrase bonus and the
      full title bonus for every word of the phrase, since each word occurs in
      the phrase. */
  lemma PhraseInTitleScore(a: Article, keyword: string)
    requires Contains(Lower(a.title), Lower(keyword))
    ensures KeywordScore(a, keyword) >= 10 + 3 * |Words(Lower(keyword))|
  {
    var title := Lower(a.title);
    var kw := Lower(keyword);
    var ws := Words(kw);
    forall k | 0 <= k < |ws|
      ensures Contains(title, ws[k])
    {
      WordOccurs(kw, ws[k]);
      ContainsTrans(title, kw, ws[k]);
    }
    WordsPointsAllInTitle(title, Lower(a.summary), ws);
  }

  // ---------------------------------------------------------------------
  // Lexical filter

  /** The number of words of `ws` that occur in `content` (the generator sum
      of `keyword_match`). */
  function MatchCount(content: string, ws: seq<string>): (n: nat)
    ensures n <= |ws|
    decreases |ws|
  {
    if ws == [] then 0
    else MatchCount(content, ws[..|ws| - 1]) + (if Contains(content, ws[|ws| - 1]) then 1 else 0)
  }

  function Max(a: int, b: int): int {
    if a < b then b else a
  }

  /** The lower-cased text `keyword_match` searches: title, a space, summary. */
  function Content(a: Article): (r: string)
    ensures r == Lower(a.title) + " " + Lower(a.summary)
  {
    LowerConcat(a.title + " ", a.summary);
    LowerConcat(a.title, " ");
    Lower(a.title + " " + a.summary)
  }

  /** `keyword_match`: at least `max(1, len(words) // 2)` of the keyword's
      words occur in the content. */
  function KeywordMatch(a: Article, keyword: string): (r: bool)
    // a keyword that splits into no words matches nothing
    ensures r ==> Words(Lower(keyword)) != []
  {
    var words := Words(Lower(keyword));
    MatchCount(Content(a), words) >= Max(1, |words| / 2)
  }

  lemma {:induction false} MatchCountPositive(content: string, ws: seq<string>)
    requires MatchCount(content, ws) > 0
    ensures exists k :: 0 <= k < |ws| && Contains(content, ws[k])
    decreases |ws|
  {
    var n := |ws|;
    if !Contains(content, ws[n - 1]) {
      MatchCountPositive(content, ws[..n - 1]);
      var k :| 0 <= k < n - 1 && Contains(content, ws[..n - 1][k]);
      assert ws[..n - 1][k] == ws[k];
    }
  }

  lemma {:induction false} MatchCountAll(content: string, ws: seq<string>)
    requires forall k :: 0 <= k < |ws| ==> Contains(content, ws[k])
    ensures MatchCount(content, ws) == |ws|
    decreases |ws|
  {
    if ws != [] {
      MatchCountAll(content, ws[..|ws| - 1]);
    }
  }

  /** An accepted article contains at least one word of the keyword. */
  lemma KeywordMatchNeedsAWord(a: Article, keyword: string)
    requires KeywordMatch(a, keyword)
    ensures exists k :: 0 <= k < |Words(Lower(keyword))| && Contains(Content(a), Words(Lower(keyword))[k])
  {
    MatchCountPositive(Content(a), Words(Lower(keyword)));
  }

  /** An article that contains every word of a non-blank keyword is accepted. */
  lemma KeywordMatchAllWords(a: Article, keyword: string)
    requires Words(Lower(keyword)) != []
    requires forall k :: 0 <= k < |Words(Lower(keyword))| ==> Contains(Content(a), Words(Lower(keyword))[k])
    ensures KeywordMatch(a, keyword)
  {
    MatchCountAll(Content(a), Words(Lower(keyword)));
  }

  /** An empty or whitespace-only keyword matches nothing. */
  lemma KeywordMatchBlank(a: Article, keyword: string)
    requires AllSpace(keyword)
    ensures !KeywordMatch(a, keyword)
  {
    LowerKeepsSpaces(keyword);
    WordsOfBlank(Lower(keyword));
    var ws := Words(Lower(keyword));
    assert ws == [];
    assert MatchCount(Content(a), ws) == 0;
  }

  /** Appending a word that occurs in the content to a matching keyword keeps
      the article matching. */
  lemma KeywordMatchMonotone(a: Article, keyword: string, w: string)
    requires KeywordMatch(a, keyword)
    requires w != [] && NoSpace(w)
    requires Contains(Content(a), Lower(w))
    ensures KeywordMatch(a, keyword + " " + w)
  {
    var ws := Words(Lower(keyword));
    WordsAppendWord(keyword, w);
    MatchCountSnoc(Content(a), ws, Lower(w));
    ThresholdStep(MatchCount(Content(a), ws), |ws|);
  }

  lemma MatchCountSnoc(content: string, ws: seq<string>, x: string)
    ensures MatchCount(content, ws + [x]) == MatchCount(content, ws) + (if Contains(content, x) then 1 else 0)
  {
    assert (ws + [x])[..|ws|] == ws;
  }

  /** One more match meets the threshold of one more word. */
  lemma ThresholdStep(c: int, n: nat)
    requires c >= Max(1, n / 2)
    ensures c + 1 >= Max(1, (n + 1) / 2)
  {
  }

  /** The elements of `s` that satisfy `keep`, in their original order. */
  function Filter<T(!new)>(s: seq<T>, keep: T -> bool): (r: seq<T>)
    ensures |r| <= |s|
    ensures forall k :: 0 <= k < |r| ==> keep(r[k])
    // each kept value occurs as often as in `s`, each dropped one not at all
    ensures forall x :: multiset(r)[x] == if keep(x) then multiset(s)[x] else 0
    decreases |s|
  {
    if s == [] then []
    else
      var r := Filter(s[..|s| - 1], keep);
      var last := s[|s| - 1];
      assert s == s[..|s| - 1] + [last];
      if keep(last) then r + [last] else r
  }

  /** The filter keeps exactly the input elements that satisfy `keep`. */
  lemma FilterMembers<T(!new)>(s: seq<T>, keep: T -> bool)
    ensures forall k :: 0 <= k < |Filter(s, keep)| ==> Filter(s, keep)[k] in s
    ensures forall k :: 0 <= k < |s| && keep(s[k]) ==> s[k] in Filter(s, keep)
  {
    var r := Filter(s, keep);
    forall k | 0 <= k < |r|
      ensures r[k] in s
    {
      assert r[k] in multiset(r);
    }
    forall k | 0 <= k < |s| && keep(s[k])
      ensures s[k] in r
    {
      assert s[k] in multiset(s);
    }
  }

  /** The filter keeps input order: its result is `s` at an increasing list
      of positions, and those are exactly the positions whose element is
      kept. */
  lemma {:induction false} FilterPositions<T(!new)>(s: seq<T>, keep: T -> bool) returns (idx: seq<nat>)
    ensures |idx| == |Filter(s, keep)|
    ensures forall t :: 0 <= t < |idx| ==> idx[t] < |s| && Filter(s, keep)[t] == s[idx[t]]
    ensures forall a, b :: 0 <= a < b < |idx| ==> idx[a] < idx[b]
    ensures forall k: nat :: k < |s| ==> (k in idx <==> keep(s[k]))
    decreases |s|
  {
    if s == [] {
      idx := [];
    } else {
      var init := s[..|s| - 1];
      var idx0 := FilterPositions(init, keep);
      var f0, f := Filter(init, keep), Filter(s, keep);
      assert f == if keep(s[|s| - 1]) then f0 + [s[|s| - 1]] else f0;
      idx := PositionsStep(s, keep, init, idx0, f0, f);
    }
  }

  /** Extending the positions of a filtered prefix by the last element. */
  lemma PositionsStep<T>(s: seq<T>, keep: T -> bool, init: seq<T>, idx0: seq<nat>, f0: seq<T>, f: seq<T>)
    returns (idx: seq<nat>)
    requires |s| > 0 && init == s[..|s| - 1]
    requires f == if keep(s[|s| - 1]) then f0 + [s[|s| - 1]] else f0
    requires |idx0| == |f0|
    requires forall t :: 0 <= t < |idx0| ==> idx0[t] < |init| && f0[t] == init[idx0[t]]
    requires forall a, b :: 0 <= a < b < |idx0| ==> idx0[a] < idx0[b]
    requires forall k: nat :: k < |init| ==> (k in idx0 <==> keep(init[k]))
    ensures |idx| == |f|
    ensures forall t :: 0 <= t < |idx| ==> idx[t] < |s| && f[t] == s[idx[t]]
    ensures forall a, b :: 0 <= a < b < |idx| ==> idx[a] < idx[b]
    ensures forall k: nat :: k < |s| ==> (k in idx <==> keep(s[k]))
  {
    if keep(s[|s| - 1]) {
      idx := idx0 + [|s| - 1];
    } else {
      idx := idx0;
    }
  }

  /** The filter step of the pipeline's entry point: the articles that pass
      `keyword_match`, in their original order. */
  function FilterRelevant(raw: seq<Article>, keyword: string): (r: seq<Article>)
    ensures |r| <= |raw|
    ensures forall k :: 0 <= k < |r| ==> r[k] in raw && KeywordMatch(r[k], keyword)
    ensures forall k :: 0 <= k < |raw| && KeywordMatch(raw[k], keyword) ==> raw[k] in r
    ensures forall x :: multiset(r)[x] == if KeywordMatch(x, keyword) then multiset(raw)[x] else 0
  {
    var keep := a => KeywordMatch(a, keyword);
    FilterMembers(raw, keep);
    Filter(raw, keep)
  }

  /** The filtered articles are the input at the increasing positions of the
      articles that pass. */
  lemma FilterRelevantOrder(raw: seq<Article>, keyword: string) returns (idx: seq<nat>)
    ensures |idx| == |FilterRelevant(raw, keyword)|
    ensures forall t :: 0 <= t < |idx| ==> idx[t] < |raw| && FilterRelevant(raw, keyword)[t] == raw[idx[t]]
    ensures forall a, b :: 0 <= a < b < |idx| ==> idx[a] < idx[b]
    ensures forall k: nat :: k < |raw| ==> (k in idx <==> KeywordMatch(raw[k], keyword))
  {
    idx := FilterPositions(raw, a => KeywordMatch(a, keyword));
  }

  // ---------------------------------------------------------------------
  // Ranking

  /** An article copied with its `score` key added. */
  datatype Scored = Scored(article: Article, score: real)

  /** `kw_score * 0.6 + sem_score * 0.4`, in exact arithmetic. */
  function Blend(kwScore: int, semScore: real): (r: real)
    // the weights add up to 1, so the blend lies between the two subscores
    ensures kwScore as real <= semScore ==> kwScore as real <= r <= semScore
    ensures semScore <= kwScore as real ==> semScore <= r <= kwScore as real
  {
    kwScore as real * 0.6 + semScore * 0.4
  }

  /** The final score of `a`: the lexical subscore blended with 100 times the
      cosine similarity of its embedding and the keyword vector. */
  function FinalScore(a: Article, keyword: string, kwVec: Vector, cosine: (Vector, Vector) -> real): (r: real)
    requires a.embedding.Some?
    // for a similarity in [0, 1], the score lies between 0 and the largest
    // lexical score times 0.6 plus 40
    ensures 0.0 <= cosine(a.embedding.value, kwVec) <= 1.0 ==>
      0.0 <= r <= 0.6 * (15 + 3 * |Words(Lower(keyword))|) as real + 40.0
  {
    Blend(KeywordScore(a, keyword), cosine(a.embedding.value, kwVec) * 100.0)
  }

  /** Each article with its final score, in input order. */
  function ScoreAll(articles: seq<Article>, keyword: string, kwVec: Vector,
                    cosine: (Vector, Vector) -> real): (r: seq<Scored>)
    requires HasEmbeddings(articles)
    ensures |r| == |articles|
    ensures forall k :: 0 <= k < |r| ==>
      r[k].article == articles[k] && r[k].score == FinalScore(articles[k], keyword, kwVec, cosine)
  {
    seq(|articles|, k requires 0 <= k < |articles| => Scored(articles[k], FinalScore(articles[k], keyword, kwVec, cosine)))
  }

  predicate NonIncreasing(s: seq<Scored>) {
    forall i, j :: 0 <= i < j < |s| ==> s[i].score >= s[j].score
  }

  /** The elements of `s` whose score is `v`, in order. */
  function WithScore(s: seq<Scored>, v: real): (r: seq<Scored>)
    decreases |s|
  {
    if s == [] then []
    else WithScore(s[..|s| - 1], v) + (if s[|s| - 1].score == v then [s[|s| - 1]] else [])
  }

  lemma WithScoreSnoc(s: seq<Scored>, x: Scored, v: real)
    ensures WithScore(s + [x], v) == WithScore(s, v) + (if x.score == v then [x] else [])
  {
    assert (s + [x])[..|s|] == s;
  }

  /** Inserts `x` into `t` after the trailing elements that score below
      it, that is, after every element whose score is at least that of `x`
      when `t` is non-increasing. */
  function Insert(t: seq<Scored>, x: Scored): (r: seq<Scored>)
    ensures |r| == |t| + 1
    ensures multiset(r) == multiset(t) + multiset{x}
    decreases |t|
  {
    if t == [] then [x]
    else if t[|t| - 1].score >= x.score then t + [x]
    else
      assert t == t[..|t| - 1] + [t[|t| - 1]];
      Insert(t[..|t| - 1], x) + [t[|t| - 1]]
  }

  lemma {:induction false} InsertSorted(t: seq<Scored>, x: Scored)
    requires NonIncreasing(t)
    ensures NonIncreasing(Insert(t, x))
    decreases |t|
  {
    if t != [] {
      var last := t[|t| - 1];
      var init := t[..|t| - 1];
      assert t == init + [last];
      if last.score < x.score {
        InsertSorted(init, x);
        AppendBelow(Insert(init, x), init, x, last);
      }
    }
  }

  /** Insertion keeps the order among the elements of any one score, and `x`
      comes after the elements of its score already in `t`. */
  lemma {:induction false} InsertStable(t: seq<Scored>, x: Scored, v: real)
    ensures WithScore(Insert(t, x), v) == WithScore(t, v) + (if x.score == v then [x] else [])
    decreases |t|
  {
    if t == [] {
      WithScoreSnoc([], x, v);
    } else {
      var last := t[|t| - 1];
      var init := t[..|t| - 1];
      assert t == init + [last];
      if last.score >= x.score {
        WithScoreSnoc(t, x, v);
      } else {
        InsertStable(init, x, v);
        WithScoreSnoc(Insert(init, x), last, v);
        WithScoreSnoc(init, last, v);
      }
    }
  }

  /** Appending `last` below a non-increasing `r` whose elements come from a
      prefix scoring at least `last`, or are `x`, which scores above it, keeps
      `r + [last]` non-increasing. */
  lemma AppendBelow(r: seq<Scored>, init: seq<Scored>, x: Scored, last: Scored)
    requires NonIncreasing(r) && NonIncreasing(init + [last]) && x.score > last.score
    requires multiset(r) == multiset(init) + multiset{x}
    ensures NonIncreasing(r + [last])
  {
    forall k | 0 <= k < |r|
      ensures r[k].score >= last.score
    {
      assert r[k] in multiset(r);
      if r[k] != x {
        assert r[k] in multiset(init);
        var j :| 0 <= j < |init| && init[j] == r[k];
        assert (init + [last])[j] == init[j];
        assert (init + [last])[|init|] == last;
      }
    }
  }

  /** Python's `sorted(s, key=score, reverse=True)`: a stable sort into
      non-increasing score order (insertion sort, element by element). */
  function SortDesc(s: seq<Scored>): (r: seq<Scored>)
    ensures |r| == |s|
    ensures multiset(r) == multiset(s)
    ensures NonIncreasing(r)
    decreases |s|
  {
    if s == [] then []
    else
      var init := s[..|s| - 1];
      assert s == init + [s[|s| - 1]];
      var sorted := SortDesc(init);
      InsertSorted(sorted, s[|s| - 1]);
      Insert(sorted, s[|s| - 1])
  }

  /** The sort is stable: the elements of each score appear in the output in
      their input order. */
  lemma {:induction false} SortDescStable(s: seq<Scored>, v: real)
    ensures WithScore(SortDesc(s), v) == WithScore(s, v)
    decreases |s|
  {
    if s != [] {
      var init := s[..|s| - 1];
      var x := s[|s| - 1];
      assert s == init + [x];
      SortDescStable(init, v);
      InsertStable(SortDesc(init), x, v);
      WithScoreSnoc(init, x, v);
    }
  }

  /** The scoring loop of `rank_articles`: a copy of each article with its
      blended score, in input order. */
  method ScoreArticles(articles: seq<Article>, keyword: string, kwVec: Vector,
                       cosine: (Vector, Vector) -> real) returns (scored: seq<Scored>)
    requires HasEmbeddings(articles)
    ensures scored == ScoreAll(articles, keyword, kwVec, cosine)
  {
    scored := [];
    for i := 0 to |articles|
      invariant |scored| == i
      invariant forall k :: 0 <= k < i ==> scored[k] == Scored(articles[k], FinalScore(articles[k], keyword, kwVec, cosine))
    {
      var a := articles[i];
      var kwScore := RelevanceScoreKeyword(a, keyword);
      var semScore := cosine(a.embedding.value, kwVec) * 100.0;
      var final := kwScore as real * 0.6 + semScore * 0.4;
      scored := scored + [Scored(a, final)];
    }
  }

  /** The module-level state of `ranking.py`: the dictionary
      `_keyword_embeds` from keyword to its embedding vector. */
  class Ranker {
    var keywordEmbeds: map<string, Vector>

    /** The empty cache the module starts with. */
    constructor ()
      ensures keywordEmbeds == map[]
    {
      keywordEmbeds := map[];
    }

    /** `rank_articles`: embeds the keyword once (reusing a cached vector),
        scores each article, and sorts the scored copies by descending
        score. `embed` and `cosine` stand for the embedding model and the
        cosine similarity. */
    method RankArticles(articles: seq<Article>, keyword: string,
                        embed: string -> Vector, cosine: (Vector, Vector) -> real)
      returns (ranked: seq<Scored>)
      requires HasEmbeddings(articles)
      modifies this
      ensures keyword in keywordEmbeds
      ensures old(keyword in keywordEmbeds) ==> keywordEmbeds == old(keywordEmbeds)
      ensures old(keyword !in keywordEmbeds) ==> keywordEmbeds == old(keywordEmbeds)[keyword := embed(keyword)]
      ensures ranked == SortDesc(ScoreAll(articles, keyword, keywordEmbeds[keyword], cosine))
      ensures |ranked| == |articles|
      ensures multiset(ranked) == multiset(ScoreAll(articles, keyword, keywordEmbeds[keyword], cosine))
      ensures NonIncreasing(ranked)
      ensures forall v :: WithScore(ranked, v) == WithScore(ScoreAll(articles, keyword, keywordEmbeds[keyword], cosine), v)
    {
      if keyword !in keywordEmbeds {
        keywordEmbeds := keywordEmbeds[keyword := embed(keyword)];
      }
      var kwVec := keywordEmbeds[keyword];
      var scored := ScoreArticles(articles, keyword, kwVec, cosine);
      ranked := SortDesc(scored);
      forall v
        ensures WithScore(ranked, v) == WithScore(scored, v)
      {
        SortDescStable(scored, v);
      }
    }
  }
}
