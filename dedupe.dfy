/** `dedupe_events_ai`: clusters the articles by embedding and keeps one
    exemplar per cluster. `Deduped` states the result without reference to
    any labelling: one exemplar per connected cluster, in the order the
    clusters are first seen, each the first member with the longest
    summary. */
module Dedupe {
  import opened Articles
  import opened Clustering
  import opened Grouping

  ghost predicate Increasing(s: seq<nat>) {
    forall a, b :: 0 <= a < b < |s| ==> s[a] < s[b]
  }

  /** Point `i` is the first point of its cluster. */
  ghost predicate IsLeader(xs: seq<Vector>, near: (Vector, Vector) -> bool, i: nat) {
    forall j :: 0 <= j < i ==> !Connected(xs, near, j, i)
  }

  /** The first point of every cluster among the first `n`, in order. */
  ghost function Leaders(xs: seq<Vector>, near: (Vector, Vector) -> bool, n: nat): (ls: seq<nat>)
    requires n <= |xs|
    ensures |ls| <= n
    ensures Increasing(ls)
    ensures forall t :: 0 <= t < |ls| ==> ls[t] < n
    ensures forall i: nat :: i in ls <==> i < n && IsLeader(xs, near, i)
  {
    if n == 0 then []
    else Leaders(xs, near, n - 1) + (if IsLeader(xs, near, n - 1) then [n - 1] else [])
  }

  /** The points among the first `n` that lie in the cluster of `i`, in order. */
  ghost function Members(xs: seq<Vector>, near: (Vector, Vector) -> bool, i: nat, n: nat): (m: seq<nat>)
    requires n <= |xs|
    ensures |m| <= n
    ensures Increasing(m)
    ensures forall t :: 0 <= t < |m| ==> m[t] < n
    ensures forall j: nat :: j in m <==> j < n && Connected(xs, near, i, j)
  {
    if n == 0 then []
    else Members(xs, near, i, n - 1) + (if Connected(xs, near, i, n - 1) then [n - 1] else [])
  }

  /** The elements of `xs` at positions `ids` (articles, or their labels). */
  function Pick<T>(xs: seq<T>, ids: seq<nat>): (r: seq<T>)
    requires forall t :: 0 <= t < |ids| ==> ids[t] < |xs|
    ensures |r| == |ids|
  {
    seq(|ids|, t requires 0 <= t < |ids| => xs[ids[t]])
  }

  lemma PickSnoc<T>(xs: seq<T>, ids: seq<nat>, i: nat)
    requires forall t :: 0 <= t < |ids| ==> ids[t] < |xs|
    requires i < |xs|
    ensures Pick(xs, ids + [i]) == Pick(xs, ids) + [xs[i]]
  {
  }

  /** The position of the exemplar chosen for the cluster of `i`. */
  ghost function ChosenIndex(articles: seq<Article>, near: (Vector, Vector) -> bool, i: nat): (e: nat)
    requires HasEmbeddings(articles) && i < |articles|
    ensures e < |articles| && Connected(Embeddings(articles), near, i, e)
  {
    var xs := Embeddings(articles);
    var m := Members(xs, near, i, |xs|);
    ConnectedRefl(xs, near, i);
    assert i in m;
    var t := LongestIndex(Pick(articles, m));
    assert m[t] in m;
    m[t]
  }

  /** Positions of the exemplars, one per cluster, by first appearance. */
  ghost function DedupedIndices(articles: seq<Article>, near: (Vector, Vector) -> bool): (ids: seq<nat>)
    requires HasEmbeddings(articles)
    ensures forall k :: 0 <= k < |ids| ==> ids[k] < |articles|
  {
    var xs := Embeddings(articles);
    var ls := Leaders(xs, near, |xs|);
    seq(|ls|, k requires 0 <= k < |ls| => ChosenIndex(articles, near, ls[k]))
  }

  ghost function Deduped(articles: seq<Article>, near: (Vector, Vector) -> bool): (ex: seq<Article>)
    requires HasEmbeddings(articles)
  {
    Pick(articles, DedupedIndices(articles, near))
  }

  // ---------------------------------------------------------------------
  // The method

  /** Labels the embeddings by cluster, groups the articles by label in a
      dict whose keys keep insertion order, and keeps the longest-summary
      article of each group. */
  method DedupeEventsAi(articles: seq<Article>, near: (Vector, Vector) -> bool) returns (exemplars: seq<Article>)
    requires HasEmbeddings(articles) && Symmetric(near)
    ensures exemplars == Deduped(articles, near)
    ensures |articles| == 0 ==> exemplars == []
  {
    if |articles| == 0 {
      return [];
    }
    var xs := Embeddings(articles);
    var labels := ComponentLabels(xs, near);
    var order, clusters := GroupByLabel(articles, labels);
    exemplars := [];
    for k := 0 to |order|
      invariant |exemplars| == k
      invariant forall t :: 0 <= t < k ==> exemplars[t] == ExemplarsOf(articles, labels)[t]
    {
      assert order[k] in labels[..|labels|];
      var best := Longest(clusters[order[k]]);
      exemplars := exemplars + [best];
    }
    ExemplarsOfComponents(articles, near, labels);
  }

  /** The `setdefault` loop: `order` lists the dict's keys in insertion
      order and `clusters` maps each key to its articles. */
  method GroupByLabel(articles: seq<Article>, labels: seq<int>)
    returns (order: seq<int>, clusters: map<int, seq<Article>>)
    requires |articles| == |labels|
    ensures order == Keys(labels, |labels|)
    ensures forall l :: l in clusters <==> l in order
    ensures forall l :: l in clusters ==> clusters[l] == Group(articles, labels, l, |labels|)
  {
    order := [];
    clusters := map[];
    for i := 0 to |articles|
      invariant GroupedUpTo(articles, labels, i, order, clusters)
    {
      var l := labels[i];
      ghost var order0, clusters0 := order, clusters;
      if l !in clusters {
        order := order + [l];
        clusters := clusters[l := []];
      }
      clusters := clusters[l := clusters[l] + [articles[i]]];
      GroupedStep(articles, labels, i, order0, clusters0);
    }
  }

  /** The state of the `setdefault` loop after the first `i` articles. */
  ghost predicate GroupedUpTo(articles: seq<Article>, labels: seq<int>, i: nat,
                              order: seq<int>, clusters: map<int, seq<Article>>)
    requires i <= |articles| == |labels|
  {
    && order == Keys(labels, i)
    && (forall l :: l in clusters <==> l in order)
    && (forall l :: l in clusters ==> clusters[l] == Group(articles, labels, l, i))
  }

  lemma GroupedStep(articles: seq<Article>, labels: seq<int>, i: nat,
                    order: seq<int>, clusters: map<int, seq<Article>>)
    requires i < |articles| == |labels|
    requires GroupedUpTo(articles, labels, i, order, clusters)
    ensures var l := labels[i];
            var order' := if l in clusters then order else order + [l];
            var c := if l in clusters then clusters else clusters[l := []];
            GroupedUpTo(articles, labels, i + 1, order', c[l := c[l] + [articles[i]]])
  {
  }

  // ---------------------------------------------------------------------
  // Any component labelling gives `Deduped`

  /** A label enters the dict exactly at the first point of its cluster. */
  lemma NewKeyIsLeader(xs: seq<Vector>, near: (Vector, Vector) -> bool, labels: seq<int>, m: nat)
    requires IsComponentLabelling(xs, near, labels) && 0 < m <= |xs|
    ensures labels[m - 1] !in Keys(labels, m - 1) <==> IsLeader(xs, near, m - 1)
  {
    var x := labels[m - 1];
    var prefix := labels[..m - 1];
    if x in prefix {
      var j :| 0 <= j < m - 1 && prefix[j] == x;
      assert Connected(xs, near, j, m - 1);
    }
    if !IsLeader(xs, near, m - 1) {
      var j :| 0 <= j < m - 1 && Connected(xs, near, j, m - 1);
      assert prefix[j] == labels[j];
    }
  }

  /** One more insertion appends the label exactly when it is new. */
  lemma KeysSnoc(labels: seq<int>, m: nat, ls: seq<nat>, lead: bool)
    requires 0 < m <= |labels|
    requires forall t :: 0 <= t < |ls| ==> ls[t] < |labels|
    requires Keys(labels, m - 1) == Pick(labels, ls)
    requires lead == (labels[m - 1] !in Keys(labels, m - 1))
    ensures Keys(labels, m) == Pick(labels, if lead then ls + [m - 1] else ls)
  {
    if lead {
      PickSnoc(labels, ls, m - 1);
    }
  }

  /** The dict's keys are the labels of the cluster leaders, in order. */
  lemma {:induction false} KeysAreLeaderLabels(xs: seq<Vector>, near: (Vector, Vector) -> bool, labels: seq<int>, m: nat)
    requires IsComponentLabelling(xs, near, labels) && m <= |xs|
    ensures Keys(labels, m) == Pick(labels, Leaders(xs, near, m))
    decreases m
  {
    if m > 0 {
      KeysAreLeaderLabels(xs, near, labels, m - 1);
      NewKeyIsLeader(xs, near, labels, m);
      KeysSnoc(labels, m, Leaders(xs, near, m - 1), IsLeader(xs, near, m - 1));
      LeadersSnoc(xs, near, m);
    }
  }

  lemma LeadersSnoc(xs: seq<Vector>, near: (Vector, Vector) -> bool, m: nat)
    requires 0 < m <= |xs|
    ensures Leaders(xs, near, m) ==
      if IsLeader(xs, near, m - 1) then Leaders(xs, near, m - 1) + [m - 1] else Leaders(xs, near, m - 1)
  {
    if !IsLeader(xs, near, m - 1) {
      assert Leaders(xs, near, m - 1) + [] == Leaders(xs, near, m - 1);
    }
  }

  /** The dict's group for the label of `i` is the cluster of `i`. */
  lemma {:induction false} GroupIsCluster(articles: seq<Article>, xs: seq<Vector>, near: (Vector, Vector) -> bool,
                                          labels: seq<int>, i: nat, m: nat)
    requires IsComponentLabelling(xs, near, labels) && |articles| == |xs|
    requires i < |xs| && m <= |xs|
    ensures Group(articles, labels, labels[i], m) == Pick(articles, Members(xs, near, i, m))
    decreases m
  {
    if m > 0 {
      GroupIsCluster(articles, xs, near, labels, i, m - 1);
      var ms := Members(xs, near, i, m - 1);
      if Connected(xs, near, i, m - 1) {
        PickSnoc(articles, ms, m - 1);
      }
    }
  }

  /** Whatever numbers the clustering gives its clusters, the method's
      result is `Deduped`: the output does not depend on the labelling. */
  lemma ExemplarsOfComponents(articles: seq<Article>, near: (Vector, Vector) -> bool, labels: seq<int>)
    requires HasEmbeddings(articles) && IsComponentLabelling(Embeddings(articles), near, labels)
    ensures ExemplarsOf(articles, labels) == Deduped(articles, near)
  {
    var xs := Embeddings(articles);
    var n := |xs|;
    var ls := Leaders(xs, near, n);
    KeysAreLeaderLabels(xs, near, labels, n);
    var ex := ExemplarsOf(articles, labels);
    var dd := Deduped(articles, near);
    forall k | 0 <= k < |ex|
      ensures ex[k] == dd[k]
    {
      GroupIsCluster(articles, xs, near, labels, ls[k], n);
    }
  }

  // ---------------------------------------------------------------------
  // Properties of `Deduped`

  /** Every point has a leader: the first point of its cluster. */
  lemma {:induction false} HasLeader(xs: seq<Vector>, near: (Vector, Vector) -> bool, i: nat) returns (l: nat)
    requires i < |xs|
    ensures l <= i && IsLeader(xs, near, l) && Connected(xs, near, l, i)
    decreases i
  {
    if IsLeader(xs, near, i) {
      l := i;
      ConnectedRefl(xs, near, i);
    } else {
      var j :| 0 <= j < i && Connected(xs, near, j, i);
      l := HasLeader(xs, near, j);
      ConnectedTrans(xs, near, l, j, i);
    }
  }

  /** A cluster has only one leader. */
  lemma LeadersEqual(xs: seq<Vector>, near: (Vector, Vector) -> bool, a: nat, b: nat)
    requires Symmetric(near) && IsLeader(xs, near, a) && IsLeader(xs, near, b)
    ensures Connected(xs, near, a, b) ==> a == b
  {
    ConnectedSymIff(xs, near, a, b);
  }

  /** The output is empty exactly for an empty input, never longer than the
      input, and made of input articles. */
  lemma DedupedSize(articles: seq<Article>, near: (Vector, Vector) -> bool)
    requires HasEmbeddings(articles)
    ensures |Deduped(articles, near)| <= |articles|
    ensures |articles| > 0 ==> |Deduped(articles, near)| >= 1
    ensures forall a :: a in Deduped(articles, near) ==> a in articles
  {
    var xs := Embeddings(articles);
    if |articles| > 0 {
      assert IsLeader(xs, near, 0);
      assert 0 in Leaders(xs, near, |xs|);
    }
    var ids := DedupedIndices(articles, near);
    forall a | a in Deduped(articles, near)
      ensures a in articles
    {
      var k :| 0 <= k < |ids| && Deduped(articles, near)[k] == a;
      assert a == articles[ids[k]];
    }
  }

  /** The clusters partition the input: every article lies in the cluster
      of exactly one exemplar. */
  lemma DedupedPartition(articles: seq<Article>, near: (Vector, Vector) -> bool, i: nat) returns (k: nat)
    requires HasEmbeddings(articles) && Symmetric(near) && i < |articles|
    ensures k < |DedupedIndices(articles, near)|
    ensures Connected(Embeddings(articles), near, DedupedIndices(articles, near)[k], i)
    ensures forall k' :: (0 <= k' < |DedupedIndices(articles, near)| &&
              Connected(Embeddings(articles), near, DedupedIndices(articles, near)[k'], i)) ==> k' == k
  {
    var xs := Embeddings(articles);
    var ls := Leaders(xs, near, |xs|);
    var ids := DedupedIndices(articles, near);
    var l := HasLeader(xs, near, i);
    assert l in ls;
    k :| 0 <= k < |ls| && ls[k] == l;
    ConnectedSym(xs, near, l, ids[k]);
    ConnectedTrans(xs, near, ids[k], l, i);
    forall k' | 0 <= k' < |ids| && Connected(xs, near, ids[k'], i)
      ensures k' == k
    {
      ConnectedTrans(xs, near, ls[k'], ids[k'], i);
      ConnectedSym(xs, near, l, i);
      ConnectedTrans(xs, near, ls[k'], i, l);
      LeadersEqual(xs, near, ls[k'], l);
    }
  }

  /** No two exemplars lie in the same cluster: two exemplars that are
      connected, and in particular two that are neighbours, are the same
      one. */
  lemma DedupedApart(articles: seq<Article>, near: (Vector, Vector) -> bool, k1: nat, k2: nat)
    requires HasEmbeddings(articles) && Symmetric(near)
    requires k1 < |DedupedIndices(articles, near)| && k2 < |DedupedIndices(articles, near)|
    ensures Connected(Embeddings(articles), near, DedupedIndices(articles, near)[k1], DedupedIndices(articles, near)[k2]) ==> k1 == k2
    ensures (near(Embeddings(articles)[DedupedIndices(articles, near)[k1]],
                  Embeddings(articles)[DedupedIndices(articles, near)[k2]])) ==> k1 == k2
  {
    var xs := Embeddings(articles);
    var ls := Leaders(xs, near, |xs|);
    var ids := DedupedIndices(articles, near);
    var e1, e2 := ids[k1], ids[k2];
    NearConnected(xs, near, e1, e2);
    if Connected(xs, near, e1, e2) {
      ConnectedTrans(xs, near, ls[k1], e1, e2);
      ConnectedSym(xs, near, ls[k2], e2);
      ConnectedTrans(xs, near, ls[k1], e2, ls[k2]);
      LeadersEqual(xs, near, ls[k1], ls[k2]);
    }
  }

  /** Exemplar `k` has the longest summary in its cluster, and every member
      before it has a strictly shorter one (ties go to the earliest). */
  lemma DedupedLongest(articles: seq<Article>, near: (Vector, Vector) -> bool, k: nat, j: nat)
    requires HasEmbeddings(articles) && Symmetric(near)
    requires k < |DedupedIndices(articles, near)| && j < |articles|
    requires Connected(Embeddings(articles), near, DedupedIndices(articles, near)[k], j)
    ensures |articles[j].summary| <= |Deduped(articles, near)[k].summary|
    ensures j < DedupedIndices(articles, near)[k] ==> |articles[j].summary| < |Deduped(articles, near)[k].summary|
  {
    var xs := Embeddings(articles);
    var ls := Leaders(xs, near, |xs|);
    var ids := DedupedIndices(articles, near);
    var l := ls[k];
    ConnectedTrans(xs, near, l, ids[k], j);
    var m := Members(xs, near, l, |xs|);
    var g := Pick(articles, m);
    ConnectedRefl(xs, near, l);
    assert l in m;
    var best := LongestIndex(g);
    assert ids[k] == m[best];
    assert j in m;
    var t :| 0 <= t < |m| && m[t] == j;
    assert g[t] == articles[j];
  }

  /** Exemplars come in the order their clusters are first seen: the first
      article of an earlier exemplar's cluster precedes every article of a
      later exemplar's cluster. */
  lemma DedupedOrder(articles: seq<Article>, near: (Vector, Vector) -> bool, k1: nat, k2: nat, j: nat)
    requires HasEmbeddings(articles) && Symmetric(near)
    requires k1 < k2 < |DedupedIndices(articles, near)| && j < |articles|
    requires Connected(Embeddings(articles), near, DedupedIndices(articles, near)[k2], j)
    ensures Leaders(Embeddings(articles), near, |articles|)[k1] < j
    ensures Connected(Embeddings(articles), near, DedupedIndices(articles, near)[k1], Leaders(Embeddings(articles), near, |articles|)[k1])
    ensures forall j' :: 0 <= j' < Leaders(Embeddings(articles), near, |articles|)[k1] ==>
              !Connected(Embeddings(articles), near, DedupedIndices(articles, near)[k1], j')
  {
    var xs := Embeddings(articles);
    var ls := Leaders(xs, near, |xs|);
    var ids := DedupedIndices(articles, near);
    var l1, l2 := ls[k1], ls[k2];
    assert l1 in ls && l2 in ls;
    ConnectedTrans(xs, near, l2, ids[k2], j);
    ConnectedSymIff(xs, near, l2, j);
    ConnectedSym(xs, near, l1, ids[k1]);
    forall j' | 0 <= j' < l1
      ensures !Connected(xs, near, ids[k1], j')
    {
      ConnectedTransImp(xs, near, l1, ids[k1], j');
      ConnectedSymIff(xs, near, l1, j');
    }
  }

  /** A single article is its own exemplar. */
  lemma DedupedSingle(a: Article, near: (Vector, Vector) -> bool)
    requires a.embedding.Some?
    ensures Deduped([a], near) == [a]
  {
    var xs := Embeddings([a]);
    assert IsLeader(xs, near, 0);
    assert Leaders(xs, near, 1) == [0];
    ConnectedRefl(xs, near, 0);
    assert Members(xs, near, 0, 1) == [0];
  }

  lemma {:induction false} LeadersAllNear(xs: seq<Vector>, near: (Vector, Vector) -> bool, m: nat)
    requires 0 < m <= |xs|
    requires forall i, j :: 0 <= i < |xs| && 0 <= j < |xs| ==> near(xs[i], xs[j])
    ensures Leaders(xs, near, m) == [0]
    decreases m
  {
    if m > 1 {
      LeadersAllNear(xs, near, m - 1);
      NearConnected(xs, near, 0, m - 1);
    }
  }

  /** When every pair of embeddings is near, the whole input collapses to
      one exemplar, whose summary is the longest of all. */
  lemma DedupedAllNear(articles: seq<Article>, near: (Vector, Vector) -> bool)
    requires HasEmbeddings(articles) && Symmetric(near) && |articles| > 0
    requires forall i, j :: 0 <= i < |articles| && 0 <= j < |articles| ==>
               near(Embeddings(articles)[i], Embeddings(articles)[j])
    ensures |Deduped(articles, near)| == 1
    ensures forall j :: 0 <= j < |articles| ==> |articles[j].summary| <= |Deduped(articles, near)[0].summary|
  {
    var xs := Embeddings(articles);
    var ls := Leaders(xs, near, |xs|);
    DedupedSize(articles, near);
    LeadersAllNear(xs, near, |xs|);
    forall j | 0 <= j < |articles|
      ensures |articles[j].summary| <= |Deduped(articles, near)[0].summary|
    {
      var e := DedupedIndices(articles, near)[0];
      NearConnected(xs, near, e, j);
      DedupedLongest(articles, near, 0, j);
    }
  }
}
