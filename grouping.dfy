/** The grouping half of `dedupe_events_ai`, over an arbitrary labelling:
    the insertion-ordered dict built with `setdefault`, and the choice of
    the member with the longest summary by Python's `max`. */
module Grouping {
  import opened Articles

  predicate Distinct<T(==)>(s: seq<T>) {
    forall i, j :: 0 <= i < j < |s| ==> s[i] != s[j]
  }

  /** The keys of the dict after the first `n` labels were inserted: the
      distinct labels of `labels[..n]`, each where it first occurs. */
  function Keys(labels: seq<int>, n: nat): (ks: seq<int>)
    requires n <= |labels|
    ensures |ks| <= n
    ensures forall x :: x in ks <==> x in labels[..n]
    ensures Distinct(ks)
  {
    if n == 0 then []
    else
      assert labels[..n] == labels[..n - 1] + [labels[n - 1]];
      var ks := Keys(labels, n - 1);
      if labels[n - 1] in ks then ks else ks + [labels[n - 1]]
  }

  /** The dict's value for label `x` after the first `n` insertions: the
      articles labelled `x`, in input order. */
  function Group(articles: seq<Article>, labels: seq<int>, x: int, n: nat): (g: seq<Article>)
    requires n <= |articles| == |labels|
    ensures |g| <= n
    ensures |g| > 0 <==> x in labels[..n]
    ensures forall a :: a in g ==> a in articles
  {
    if n == 0 then []
    else
      assert labels[..n] == labels[..n - 1] + [labels[n - 1]];
      Group(articles, labels, x, n - 1) + (if labels[n - 1] == x then [articles[n - 1]] else [])
  }

  /** Index of the element `max(group, key=len(summary))` returns: a member
      with the longest summary, and the first such member, since `max`
      replaces its candidate only on a strictly larger key. */
  function LongestIndex(g: seq<Article>): (i: nat)
    requires |g| > 0
    ensures i < |g|
    ensures forall j :: 0 <= j < |g| ==> |g[j].summary| <= |g[i].summary|
    ensures forall j :: 0 <= j < i ==> |g[j].summary| < |g[i].summary|
  {
    if |g| == 1 then 0
    else
      var i := LongestIndex(g[..|g| - 1]);
      if |g[|g| - 1].summary| > |g[i].summary| then |g| - 1 else i
  }

  function Longest(g: seq<Article>): (a: Article)
    requires |g| > 0
    ensures a in g
    ensures forall b :: b in g ==> |b.summary| <= |a.summary|
  {
    g[LongestIndex(g)]
  }

  /** The exemplar list for a given labelling: one `Longest` per dict key,
      in key order. */
  function ExemplarsOf(articles: seq<Article>, labels: seq<int>): (ex: seq<Article>)
    requires |articles| == |labels|
    ensures |ex| <= |articles|
    ensures |articles| > 0 ==> |ex| > 0
    ensures forall a :: a in ex ==> a in articles
  {
    var n := |labels|;
    var ks := Keys(labels, n);
    assert n > 0 ==> labels[0] in labels[..n];
    seq(|ks|, k requires 0 <= k < |ks| => Longest(Group(articles, labels, ks[k], n)))
  }

  /** Each exemplar is the longest article of its own label. */
  lemma ExemplarsOfLongest(articles: seq<Article>, labels: seq<int>, k: nat, i: nat)
    requires |articles| == |labels|
    requires k < |Keys(labels, |labels|)| && i < |labels| && labels[i] == Keys(labels, |labels|)[k]
    ensures |articles[i].summary| <= |ExemplarsOf(articles, labels)[k].summary|
  {
    var n := |labels|;
    var ks := Keys(labels, n);
    GroupHas(articles, labels, i, n);
  }

  /** Article `i` sits in the group of its own label. */
  lemma {:induction false} GroupHas(articles: seq<Article>, labels: seq<int>, i: nat, n: nat)
    requires n <= |articles| == |labels| && i < n
    ensures articles[i] in Group(articles, labels, labels[i], n)
    decreases n
  {
    if i < n - 1 {
      GroupHas(articles, labels, i, n - 1);
    }
  }
}
