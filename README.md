# News pipeline deduplication and ranking engine

A Dafny model of the processing core of a news aggregator. It covers:

- **Normalizer** (`normalize_article`). Turns a provider record whose fields may be missing into a complete article record. Defaults fill the gaps, the source is upper-cased and the summary is cut to 1000 characters.
- **Lexical filter** (`keyword_match`). Keeps an article when enough of the keyword's words occur in its title and summary.
- **Lexical scorer** (`relevance_score_keyword`). Awards 10 and 5 points for the whole phrase, then 3 or 1 points per word.
- **Ranker** (`rank_articles`):
  - embeds the keyword once, keeping the vector in a module-level cache;
  - blends 0.6 times the lexical score with 0.4 times 100 times the cosine similarity;
  - returns the scored copies in a stable sort by descending score.
- **Deduplicator** (`dedupe_events_ai`):
  - clusters the embeddings with DBSCAN, using cosine distance and `min_samples = 1`;
  - groups the articles by label in an insertion-ordered dict;
  - keeps `max(group, key=len(summary))` of each group.

The modules follow the program:

- `Text` models the string operations used: ASCII `lower`/`upper`, the `in` substring test and the argument-less `split`.
- `Articles` holds the record.
- `Normalize`, `Ranking`, `Clustering`, `Grouping` and `Dedupe` model the operations.

With `min_samples = 1`, every point is a core point, so DBSCAN's output is the connected components of the neighbourhood graph. `Clustering.ComponentLabels` computes such a labelling with a flood fill over an array of labels.

`Dedupe.Deduped` states the deduplicator's result without any labelling:

- one exemplar per connected cluster;
- clusters come in the order of their first member;
- each exemplar is the first member with the longest summary.

`Dedupe.ExemplarsOfComponents` proves that grouping by any component labelling gives exactly that result. So the output does not depend on how the clustering library numbers its clusters.

## Model

| member | source | states |
|---|---|---|
| Normalize.Or | news_pipeline/processing/normalize.py:3-8 | `x or default`: the value when it is present and non-empty, the default otherwise |
| Normalize.Take | news_pipeline/processing/normalize.py:6 | `s[:n]` is a prefix of `s` of length at most `n`; it is the whole of `s` when `s` has at most `n` characters, and exactly `n` long otherwise |
| Normalize.NormalizeArticle | news_pipeline/processing/normalize.py:1-9 | the title is never empty and is the given one or "No Headline"; the link is the given one or "#"; the source is the given one (or "") upper-cased character by character; the summary is non-empty, at most 1000 long, a prefix of the given summary or of the placeholder, and equal to it when it is short enough; the date defaults to "" and the image to the placeholder URL; there is no embedding yet |
| Normalize.NormalizeIdempotent | news_pipeline/processing/normalize.py:1-9 | normalizing the fields of a normalized record returns the same record |
| Normalize.NormalizeKeepsUpperSource | news_pipeline/processing/normalize.py:5 | a source that is already upper-case is kept unchanged |
| Text.Lower | news_pipeline/processing/ranking.py:5-7 | `str.lower()`: same length, each character mapped by the ASCII lower-case map |
| Text.Upper | news_pipeline/processing/normalize.py:5 | `str.upper()`: same length, each character mapped by the ASCII upper-case map |
| Text.Contains | news_pipeline/processing/ranking.py:10 | `p in s`: `s` starts with `p` or its tail contains `p`; `ContainsAt` and `ContainsWitness` show this means `p` occurs at some position |
| Text.ContainsAt | news_pipeline/processing/ranking.py:10 | an occurrence of `p` at any position of `s` makes `p in s` true |
| Text.ContainsWitness | news_pipeline/processing/ranking.py:10 | when `p in s` holds, there is a position where `p` occurs |
| Text.Words | news_pipeline/processing/ranking.py:7 | `str.split()` with no argument: the maximal runs of non-whitespace characters, in order; `WordsAreWords`, `WordsOfBlank`, `WordOccurs` and `WordsConcat` state its properties |
| Text.UpperIdempotent | news_pipeline/processing/normalize.py:5 | upper-casing twice is upper-casing once |
| Text.WordsAreWords | news_pipeline/processing/ranking.py:7 | every word `split()` returns is non-empty and contains no whitespace |
| Text.WordsOfBlank | news_pipeline/processing/ranking.py:21 | a blank or whitespace-only string splits into no words |
| Text.WordOccurs | news_pipeline/processing/ranking.py:7 | every word of the split occurs as a substring of the split string |
| Text.WordsConcat | news_pipeline/processing/ranking.py:21 | splitting `s + " " + t` gives the words of `s` followed by the words of `t` |
| Text.WordsAppendWord | news_pipeline/processing/ranking.py:21 | the lower-cased words of `keyword + " " + w`, for a non-empty word `w`, are those of `keyword` with `lower(w)` appended |
| Text.ContainsTrans | news_pipeline/processing/ranking.py:14 | a substring of a substring of `s` is a substring of `s` |
| Ranking.WordPoints | news_pipeline/processing/ranking.py:14-15 | one word earns 3 exactly when it is in the title, 1 exactly when it is in the summary but not the title, and 0 exactly when it is in neither |
| Ranking.WordBonus | news_pipeline/processing/ranking.py:13-15 | the per-word loop's total is the sum of the word points over the keyword's words, in order |
| Ranking.RelevanceScoreKeyword | news_pipeline/processing/ranking.py:4-17 | the returned score is the phrase bonus (10 in the title, 5 in the summary, over lower-cased text) plus the per-word bonus |
| Ranking.WordsPointsBounds | news_pipeline/processing/ranking.py:13-15 | the per-word bonus lies between 0 and 3 points per word |
| Ranking.WordsPointsAllInTitle | news_pipeline/processing/ranking.py:13-15 | when every word is in the title, the per-word bonus is exactly 3 per word |
| Ranking.KeywordScore | news_pipeline/processing/ranking.py:5-15 | the lexical score of an article lies between 0 and 15 plus 3 per keyword word |
| Ranking.PhraseInTitleScore | news_pipeline/processing/ranking.py:10-15 | a title containing the whole keyword phrase scores at least 10 plus 3 per keyword word |
| Ranking.Content | news_pipeline/processing/ranking.py:20 | the searched text is the lower-cased title, a space, and the lower-cased summary |
| Ranking.KeywordMatch | news_pipeline/processing/ranking.py:19-23 | `keyword_match`: an accepted article has a keyword with at least one word; the lemmas below give the rest of the threshold's meaning |
| Ranking.MatchCount | news_pipeline/processing/ranking.py:22 | the number of matching words is at most the number of words |
| Ranking.KeywordMatchNeedsAWord | news_pipeline/processing/ranking.py:19-23 | an accepted article contains at least one of the keyword's words |
| Ranking.KeywordMatchAllWords | news_pipeline/processing/ranking.py:19-23 | an article that contains every word of a keyword with at least one word is accepted |
| Ranking.KeywordMatchBlank | news_pipeline/processing/ranking.py:19-23 | an empty or whitespace-only keyword accepts no article |
| Ranking.KeywordMatchMonotone | news_pipeline/processing/ranking.py:19-23 | appending to an accepted keyword a word that occurs in the content keeps the article accepted |
| Ranking.ThresholdStep | news_pipeline/processing/ranking.py:23 | one more match meets the threshold `max(1, n // 2)` for one more word |
| Ranking.Filter | news_pipeline/main.py:20 | a list comprehension with a condition is no longer than its input, holds only elements that satisfy the condition, and holds each such value exactly as often as the input does |
| Ranking.FilterMembers | news_pipeline/main.py:20 | the comprehension's elements come from the input, and every input element that satisfies the condition is among them |
| Ranking.FilterPositions | news_pipeline/main.py:20 | the comprehension is the input at an increasing list of positions, and those are exactly the positions whose element satisfies the condition, so input order and repetitions are kept |
| Ranking.FilterRelevant | news_pipeline/main.py:20 | the filtered list holds input articles that pass `keyword_match`; every input article that passes is in it, exactly as often as in the input |
| Ranking.FilterRelevantOrder | news_pipeline/main.py:20 | the filtered list is the input at the increasing positions of exactly the articles that pass, so input order is kept |
| Ranking.Blend | news_pipeline/processing/ranking.py:39 | `kw_score * 0.6 + sem_score * 0.4`: the weights add up to 1, so the blend lies between the two subscores |
| Ranking.FinalScore | news_pipeline/processing/ranking.py:36-39 | for a cosine similarity in [0, 1], the final score lies between 0 and 0.6 times the largest lexical score plus 40 |
| Ranking.Insert | news_pipeline/processing/ranking.py:43 | one step of the sort adds exactly the new element to the list |
| Ranking.ScoreAll | news_pipeline/processing/ranking.py:35-41 | one record per article, in input order, each being its article plus its blended final score |
| Ranking.ScoreArticles | news_pipeline/processing/ranking.py:34-41 | the scoring loop builds exactly `ScoreAll` |
| Ranking.InsertSorted | news_pipeline/processing/ranking.py:43 | inserting into a non-increasing list keeps it non-increasing |
| Ranking.InsertStable | news_pipeline/processing/ranking.py:43 | insertion keeps the order among equal scores and puts the new element after the existing ones with its score |
| Ranking.SortDesc | news_pipeline/processing/ranking.py:43 | the sorted list has the same length and the same elements, and is non-increasing in score |
| Ranking.SortDescStable | news_pipeline/processing/ranking.py:43 | for every score, the elements with that score appear in the sorted list in input order |
| Ranking.Ranker.constructor | news_pipeline/processing/ranking.py:26 | the keyword-embedding cache starts empty |
| Ranking.Ranker.RankArticles | news_pipeline/processing/ranking.py:28-43 | afterwards the keyword is cached; a cached vector is reused, and otherwise exactly one entry, `embed(keyword)`, is added; the result is the stable descending sort of the scored articles; it is a permutation of them of the same length and is non-increasing |
| Clustering.NearConnected | news_pipeline/processing/dedupe.py:20-24 | neighbours are in the same cluster |
| Clustering.ConnectedSym | news_pipeline/processing/dedupe.py:17-18 | with a symmetric neighbour relation, same-cluster is symmetric |
| Clustering.ConnectedTrans | news_pipeline/processing/dedupe.py:20-24 | same-cluster is transitive, so chains of neighbours end in one cluster |
| Clustering.VisitNeighbours | news_pipeline/processing/dedupe.py:20-24 | the new labelling is `p`'s cluster for exactly the unvisited neighbours of `p`, with every other label unchanged; afterwards every neighbour of `p` is in `p`'s cluster; the new stack is the old one followed by exactly those neighbours, in index order, each once; soundness and closure of the labelling are kept |
| Clustering.ExaminePoint | news_pipeline/processing/dedupe.py:20-24 | one step of the neighbour scan keeps the scan's invariant and its record of labels and pushes |
| Clustering.FloodCluster | news_pipeline/processing/dedupe.py:20-24 | labels everything reachable from the new seed; leaves no visited point with an unlabelled neighbour; keeps every earlier label |
| Clustering.ComponentLabels | news_pipeline/processing/dedupe.py:20-26 | every label is non-negative, and two points share a label exactly when a chain of neighbours joins them (DBSCAN with `min_samples = 1`) |
| Articles.Embeddings | news_pipeline/processing/dedupe.py:14 | the matrix `X`: one embedding per article, in input order, each that article's own |
| Grouping.Keys | news_pipeline/processing/dedupe.py:28-30 | the dict's keys are exactly the labels seen so far, each only once |
| Grouping.Group | news_pipeline/processing/dedupe.py:28-30 | a label's group is non-empty exactly when the label was seen, and it holds input articles only |
| Grouping.LongestIndex | news_pipeline/processing/dedupe.py:35 | `max` by summary length picks a longest member, and every member before it is strictly shorter |
| Grouping.Longest | news_pipeline/processing/dedupe.py:35 | the chosen article belongs to its group, and no member of the group has a longer summary |
| Grouping.ExemplarsOf | news_pipeline/processing/dedupe.py:32-36 | at most one exemplar per article, at least one for a non-empty input, all of them from the input |
| Grouping.ExemplarsOfLongest | news_pipeline/processing/dedupe.py:32-36 | every article is no longer than the exemplar of its own label |
| Grouping.GroupHas | news_pipeline/processing/dedupe.py:29-30 | each article is in the group of its own label |
| Dedupe.Deduped | news_pipeline/processing/dedupe.py:6-38 | the result without any labelling: for each cluster in order of its first point, the first member with the longest summary; the `Deduped` lemmas below state its properties |
| Dedupe.Leaders | news_pipeline/processing/dedupe.py:28-30 | the first point of each cluster, in increasing order; a point is listed exactly when no earlier point is in its cluster |
| Dedupe.Members | news_pipeline/processing/dedupe.py:28-30 | the points of a cluster, in increasing order, and no others |
| Dedupe.ChosenIndex | news_pipeline/processing/dedupe.py:35 | the chosen exemplar lies in the cluster it represents |
| Dedupe.GroupByLabel | news_pipeline/processing/dedupe.py:28-30 | the `setdefault` loop: the keys in insertion order are `Keys`, the map holds exactly those keys, and each key's value is its group in input order |
| Dedupe.DedupeEventsAi | news_pipeline/processing/dedupe.py:6-38 | the result is `Deduped`, and it is empty for an empty input |
| Dedupe.KeysAreLeaderLabels | news_pipeline/processing/dedupe.py:28-30 | the dict's keys, in insertion order, are the labels of the clusters' first points, in input order |
| Dedupe.GroupIsCluster | news_pipeline/processing/dedupe.py:28-30 | the group of a point's label is the articles of that point's cluster, in input order |
| Dedupe.ExemplarsOfComponents | news_pipeline/processing/dedupe.py:26-38 | for every component labelling, whatever its numbering, the grouped exemplars are `Deduped` |
| Dedupe.HasLeader | news_pipeline/processing/dedupe.py:29-30 | every point's cluster has a first point, at or before it |
| Dedupe.LeadersEqual | news_pipeline/processing/dedupe.py:29-30 | a cluster has only one first point |
| Dedupe.DedupedSize | news_pipeline/processing/dedupe.py:11-38 | the output is no longer than the input, non-empty for a non-empty input, and made of input articles |
| Dedupe.DedupedPartition | news_pipeline/processing/dedupe.py:28-30 | every article lies in the cluster of exactly one exemplar |
| Dedupe.DedupedApart | news_pipeline/processing/dedupe.py:20-36 | two different exemplars are neither neighbours nor joined by a chain of neighbours |
| Dedupe.DedupedLongest | news_pipeline/processing/dedupe.py:35 | an exemplar's summary is at least as long as that of every member of its cluster, and strictly longer than that of every earlier member |
| Dedupe.DedupedOrder | news_pipeline/processing/dedupe.py:33-36 | exemplars come in the order their clusters are first seen: the first point of an earlier exemplar's cluster precedes every member of a later one |
| Dedupe.DedupedSingle | news_pipeline/processing/dedupe.py:11-38 | a single article is returned as it is |
| Dedupe.LeadersAllNear | news_pipeline/processing/dedupe.py:20-26 | when all points are neighbours, there is one cluster, led by the first point |
| Dedupe.DedupedAllNear | news_pipeline/processing/dedupe.py:20-36 | when all embeddings are neighbours, the output is a single article, with the longest summary of all |

## Left out

- Floating point: scores and similarities are exact reals, so rounding, NaN and the zero-vector case of cosine similarity are not modelled.
- Text handling is ASCII only. `lower`/`upper` map only `A`-`Z`/`a`-`z`, and `split` splits only on ASCII whitespace. Python's Unicode case mapping and Unicode whitespace are not modelled.
- The embedding model, `cosine_similarity` and the DBSCAN metric are parameters: `embed`, `cosine`, and a neighbour relation `near` standing for "cosine distance at most `DBSCAN_EPS`". `near` is required to be symmetric, as cosine distance is. The modules `embeddings.embedder` and `utils.similarity` are not part of this model.
- DBSCAN's internals and its own label numbering are not modelled. `Clustering.ComponentLabels` produces one component labelling. `Dedupe.ExemplarsOfComponents` shows the result is the same for every component labelling, which covers the library's numbering.
- `str(source or "")` on a non-string source is not modelled: all fields are strings or absent.
- The keyword-embedding cache is an unbounded map, as in the source. The concurrent use of that module-level dict is not modelled.
- Ranking.Ranker.RankArticles: the records are a `Scored` pair of the article and its score rather than a dict extended with a `score` key. A record that already had a `score` key is therefore not modelled, and the pipeline never passes one.
- `rank_articles` has no ascending option: it always sorts in descending order, and so does the model. The web app's own re-sort for display, ascending or descending, is outside the core and is not modelled.
- An article without an `embedding` makes `dedupe_events_ai` and `rank_articles` raise `KeyError`. The model instead requires every article to carry one (`HasEmbeddings`).
- The fetchers, the embedding step, `get_all_news`'s printing, the web app, the export and the configuration with its API keys are outside the core and are not modelled.
