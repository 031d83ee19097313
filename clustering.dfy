/** The clustering step of `dedupe_events_ai`. With `DBSCAN_MIN_SAMPLES = 1`
    every point is a core point and there is no noise, so DBSCAN labels the
    connected components of the neighbour graph in which two embeddings are
    adjacent when their cosine distance is at most `DBSCAN_EPS`; `near`
    stands for that test. */
module Clustering {
  import opened Articles

  /** Cosine distance is symmetric, so the neighbour test is too. */
  ghost predicate Symmetric(near: (Vector, Vector) -> bool) {
    forall u, v :: near(u, v) == near(v, u)
  }

  /** `p` is a walk from point `i` to point `j` of `xs` in which each step
      joins two neighbours. */
  ghost predicate IsPath(xs: seq<Vector>, near: (Vector, Vector) -> bool, p: seq<nat>, i: nat, j: nat) {
    && |p| >= 1 && p[0] == i && p[|p| - 1] == j
    && (forall k :: 0 <= k < |p| ==> p[k] < |xs|)
    && (forall k :: 0 <= k < |p| - 1 ==> near(xs[p[k]], xs[p[k + 1]]))
  }

  /** Points `i` and `j` are joined by a chain of neighbours (density
      reachability when every point is a core point). */
  ghost predicate Connected(xs: seq<Vector>, near: (Vector, Vector) -> bool, i: nat, j: nat) {
    exists p :: IsPath(xs, near, p, i, j)
  }

  lemma ConnectedRefl(xs: seq<Vector>, near: (Vector, Vector) -> bool, i: nat)
    requires i < |xs|
    ensures Connected(xs, near, i, i)
  {
    assert IsPath(xs, near, [i], i, i);
  }

  lemma ConnectedStep(xs: seq<Vector>, near: (Vector, Vector) -> bool, i: nat, j: nat, k: nat)
    requires Connected(xs, near, i, j) && k < |xs| && near(xs[j], xs[k])
    ensures Connected(xs, near, i, k)
  {
    var p :| IsPath(xs, near, p, i, j);
    var q := p + [k];
    assert forall t :: 0 <= t < |p| ==> q[t] == p[t];
    assert IsPath(xs, near, q, i, k);
  }

  /** Two neighbours are connected. */
  lemma NearConnected(xs: seq<Vector>, near: (Vector, Vector) -> bool, i: nat, j: nat)
    requires i < |xs| && j < |xs|
    ensures near(xs[i], xs[j]) ==> Connected(xs, near, i, j)
  {
    if near(xs[i], xs[j]) {
      ConnectedRefl(xs, near, i);
      ConnectedStep(xs, near, i, i, j);
    }
  }

  lemma ConnectedSym(xs: seq<Vector>, near: (Vector, Vector) -> bool, i: nat, j: nat)
    requires Symmetric(near) && Connected(xs, near, i, j)
    ensures Connected(xs, near, j, i)
  {
    var p :| IsPath(xs, near, p, i, j);
    var n := |p|;
    var q := seq(n, k requires 0 <= k < n => p[n - 1 - k]);
    forall k | 0 <= k < n - 1
      ensures near(xs[q[k]], xs[q[k + 1]])
    {
      assert near(xs[p[n - 2 - k]], xs[p[n - 2 - k + 1]]);
    }
    assert IsPath(xs, near, q, j, i);
  }

  /** A walk that starts at a point connected to `i` ends at one too. */
  lemma {:induction false} PathExtends(xs: seq<Vector>, near: (Vector, Vector) -> bool, i: nat, q: seq<nat>)
    requires |q| >= 1 && IsPath(xs, near, q, q[0], q[|q| - 1])
    requires Connected(xs, near, i, q[0])
    ensures Connected(xs, near, i, q[|q| - 1])
    decreases |q|
  {
    if |q| > 1 {
      var q' := q[..|q| - 1];
      assert IsPath(xs, near, q', q'[0], q'[|q'| - 1]);
      PathExtends(xs, near, i, q');
      ConnectedStep(xs, near, i, q'[|q'| - 1], q[|q| - 1]);
    }
  }

  lemma ConnectedTrans(xs: seq<Vector>, near: (Vector, Vector) -> bool, i: nat, j: nat, k: nat)
    requires Connected(xs, near, i, j) && Connected(xs, near, j, k)
    ensures Connected(xs, near, i, k)
  {
    var q :| IsPath(xs, near, q, j, k);
    PathExtends(xs, near, i, q);
  }

  /** Two points share a label exactly when they are connected. */
  ghost predicate IsComponentLabelling(xs: seq<Vector>, near: (Vector, Vector) -> bool, labels: seq<int>) {
    && |labels| == |xs|
    && forall i, j :: 0 <= i < |xs| && 0 <= j < |xs| ==> (labels[i] == labels[j] <==> Connected(xs, near, i, j))
  }

  lemma ConnectedSymIff(xs: seq<Vector>, near: (Vector, Vector) -> bool, i: nat, j: nat)
    requires Symmetric(near)
    ensures Connected(xs, near, i, j) <==> Connected(xs, near, j, i)
  {
    if Connected(xs, near, i, j) {
      ConnectedSym(xs, near, i, j);
    }
    if Connected(xs, near, j, i) {
      ConnectedSym(xs, near, j, i);
    }
  }

  lemma ConnectedTransImp(xs: seq<Vector>, near: (Vector, Vector) -> bool, i: nat, j: nat, k: nat)
    ensures Connected(xs, near, i, j) && Connected(xs, near, j, k) ==> Connected(xs, near, i, k)
  {
    if Connected(xs, near, i, j) && Connected(xs, near, j, k) {
      ConnectedTrans(xs, near, i, j, k);
    }
  }

  // ---------------------------------------------------------------------
  // Labelling by flood fill

  /** Label -1 marks a point not yet visited. */
  const Unvisited := -1

  /** Every label is a visited cluster number or unvisited; cluster `c`
      was started at `seeds[c]`, and every point labelled `c` is connected to
      that seed. */
  ghost predicate Sound(xs: seq<Vector>, near: (Vector, Vector) -> bool, lab: seq<int>, seeds: seq<nat>) {
    && |lab| == |xs|
    && (forall k :: 0 <= k < |lab| ==> Unvisited <= lab[k] < |seeds|)
    && (forall c :: 0 <= c < |seeds| ==> seeds[c] < |lab| && lab[seeds[c]] == c)
    && (forall k :: 0 <= k < |lab| && lab[k] != Unvisited ==> Connected(xs, near, seeds[lab[k]], k))
  }

  /** Every visited point outside `open` has all its neighbours in its own
      cluster. */
  ghost predicate ClosedExcept(xs: seq<Vector>, near: (Vector, Vector) -> bool, lab: seq<int>, open: seq<nat>) {
    && |lab| == |xs|
    && forall p, q :: 0 <= p < |lab| && 0 <= q < |lab| && lab[p] != Unvisited && p !in open && near(xs[p], xs[q]) ==>
         lab[q] == lab[p]
  }

  ghost function UnvisitedSet(lab: seq<int>): set<nat> {
    set k: nat | k < |lab| && lab[k] == Unvisited
  }

  lemma VisitKeepsSound(xs: seq<Vector>, near: (Vector, Vector) -> bool, lab: seq<int>, seeds: seq<nat>, q: nat, c: int)
    requires Sound(xs, near, lab, seeds) && q < |lab| && lab[q] == Unvisited
    requires 0 <= c < |seeds| && Connected(xs, near, seeds[c], q)
    ensures Sound(xs, near, lab[q := c], seeds)
  {
  }

  lemma VisitKeepsClosed(xs: seq<Vector>, near: (Vector, Vector) -> bool, lab: seq<int>, open: seq<nat>, open': seq<nat>, q: nat, c: int)
    requires ClosedExcept(xs, near, lab, open) && q < |lab| && lab[q] == Unvisited
    requires q in open' && forall k :: 0 <= k < |open| ==> open[k] in open'
    ensures ClosedExcept(xs, near, lab[q := c], open')
  {
  }

  lemma VisitShrinksUnvisited(lab: seq<int>, q: nat, c: int)
    requires q < |lab| && lab[q] == Unvisited && c != Unvisited
    ensures UnvisitedSet(lab[q := c]) < UnvisitedSet(lab)
  {
    assert q in UnvisitedSet(lab) - UnvisitedSet(lab[q := c]);
  }

  /** The state of the neighbour scan of point `p` of cluster `c` once
      points `0 .. q-1` were examined: `orig` and `stack` are the labels and
      the stack before the scan, `lab` and `st` the current ones. */
  ghost predicate ScanInv(xs: seq<Vector>, near: (Vector, Vector) -> bool, seeds: seq<nat>, c: int, p: nat,
                          orig: seq<int>, stack: seq<nat>, q: nat, lab: seq<int>, st: seq<nat>) {
    && Sound(xs, near, lab, seeds) && 0 <= c == |seeds| - 1
    && p < |lab| && lab[p] == c && |orig| == |lab| && q <= |lab|
    && (forall k :: 0 <= k < |st| ==> st[k] < |lab| && lab[st[k]] == c)
    && ClosedExcept(xs, near, lab, st + [p])
    && (forall r :: 0 <= r < q && near(xs[p], xs[r]) ==> lab[r] == c)
    && (forall k :: 0 <= k < |lab| && orig[k] != Unvisited ==> lab[k] == orig[k])
    && UnvisitedSet(lab) <= UnvisitedSet(orig)
    && (UnvisitedSet(lab) == UnvisitedSet(orig) ==> st == stack)
  }

  /** Examining an unvisited neighbour `q`: it joins cluster `c` and is pushed. */
  lemma ScanVisit(xs: seq<Vector>, near: (Vector, Vector) -> bool, seeds: seq<nat>, c: int, p: nat,
                  orig: seq<int>, stack: seq<nat>, q: nat, lab: seq<int>, st: seq<nat>)
    requires ScanInv(xs, near, seeds, c, p, orig, stack, q, lab, st)
    requires q < |lab| && near(xs[p], xs[q]) && lab[q] == Unvisited
    ensures ScanInv(xs, near, seeds, c, p, orig, stack, q + 1, lab[q := c], st + [q])
  {
    ConnectedStep(xs, near, seeds[c], p, q);
    VisitKeepsSound(xs, near, lab, seeds, q, c);
    var open, open' := st + [p], st + [q] + [p];
    assert forall k :: 0 <= k < |open| ==> open[k] in open';
    VisitKeepsClosed(xs, near, lab, open, open', q, c);
    VisitShrinksUnvisited(lab, q, c);
  }

  /** Examining any other point changes nothing; a visited neighbour already
      lies in cluster `c`. */
  lemma ScanSkip(xs: seq<Vector>, near: (Vector, Vector) -> bool, seeds: seq<nat>, c: int, p: nat,
                 orig: seq<int>, stack: seq<nat>, q: nat, lab: seq<int>, st: seq<nat>)
    requires Symmetric(near)
    requires ScanInv(xs, near, seeds, c, p, orig, stack, q, lab, st)
    requires q < |lab| && !(near(xs[p], xs[q]) && lab[q] == Unvisited)
    ensures ScanInv(xs, near, seeds, c, p, orig, stack, q + 1, lab, st)
  {
    if near(xs[p], xs[q]) && q !in st + [p] {
      assert near(xs[q], xs[p]);
    }
  }

  /** After the whole scan `p` is closed. */
  lemma ScanDone(xs: seq<Vector>, near: (Vector, Vector) -> bool, seeds: seq<nat>, c: int, p: nat,
                 orig: seq<int>, stack: seq<nat>, lab: seq<int>, st: seq<nat>)
    requires ScanInv(xs, near, seeds, c, p, orig, stack, |lab|, lab, st)
    ensures ClosedExcept(xs, near, lab, st)
  {
    forall a, b | 0 <= a < |lab| && 0 <= b < |lab| && lab[a] != Unvisited && a !in st && near(xs[a], xs[b])
      ensures lab[b] == lab[a]
    {
      if a != p {
        assert a !in st + [p];
      }
    }
  }

  /** What the neighbour scan of `p` has done once points `0 .. q-1` were
      examined, starting from labels `orig` and stack `stack`: exactly the
      unvisited neighbours of `p` among them joined cluster `c`, no other
      label changed, and those neighbours were pushed onto the stack in
      index order, each once. */
  ghost predicate Scanned(xs: seq<Vector>, near: (Vector, Vector) -> bool, c: int, p: nat,
                          orig: seq<int>, stack: seq<nat>, q: nat, lab: seq<int>, st: seq<nat>) {
    && |lab| == |orig| == |xs| && p < |xs| && q <= |lab|
    && (forall r :: 0 <= r < |lab| ==>
          lab[r] == (if r < q && orig[r] == Unvisited && near(xs[p], xs[r]) then c else orig[r]))
    && |stack| <= |st| && st[..|stack|] == stack
    && (forall t :: |stack| <= t < |st| ==>
          st[t] < q && orig[st[t]] == Unvisited && near(xs[p], xs[st[t]]))
    && (forall a, b :: |stack| <= a < b < |st| ==> st[a] < st[b])
    && (forall r :: 0 <= r < q && orig[r] == Unvisited && near(xs[p], xs[r]) ==> r in st[|stack|..])
  }

  lemma ScannedVisit(xs: seq<Vector>, near: (Vector, Vector) -> bool, c: int, p: nat,
                     orig: seq<int>, stack: seq<nat>, q: nat, lab: seq<int>, st: seq<nat>)
    requires Scanned(xs, near, c, p, orig, stack, q, lab, st)
    requires q < |lab| && near(xs[p], xs[q]) && lab[q] == Unvisited
    ensures Scanned(xs, near, c, p, orig, stack, q + 1, lab[q := c], st + [q])
  {
    var st' := st + [q];
    assert st'[..|stack|] == st[..|stack|];
    assert st'[|stack|..] == st[|stack|..] + [q];
  }

  lemma ScannedSkip(xs: seq<Vector>, near: (Vector, Vector) -> bool, c: int, p: nat,
                    orig: seq<int>, stack: seq<nat>, q: nat, lab: seq<int>, st: seq<nat>)
    requires Scanned(xs, near, c, p, orig, stack, q, lab, st)
    requires q < |lab| && !(near(xs[p], xs[q]) && lab[q] == Unvisited)
    ensures Scanned(xs, near, c, p, orig, stack, q + 1, lab, st)
  {
  }

  /** The neighbour scan of one point `p` of cluster `c`: every unvisited
      neighbour joins the cluster and is pushed for a later scan, in index
      order; no other label changes. */
  method VisitNeighbours(xs: seq<Vector>, near: (Vector, Vector) -> bool, lab: array<int>,
                         ghost seeds: seq<nat>, c: int, p: nat, stack: seq<nat>)
    returns (stack': seq<nat>)
    requires Symmetric(near)
    requires Sound(xs, near, lab[..], seeds) && 0 <= c == |seeds| - 1
    requires p < lab.Length && lab[p] == c
    requires forall k :: 0 <= k < |stack| ==> stack[k] < lab.Length && lab[stack[k]] == c
    requires ClosedExcept(xs, near, lab[..], stack + [p])
    modifies lab
    ensures Sound(xs, near, lab[..], seeds)
    ensures forall k :: 0 <= k < |stack'| ==> stack'[k] < lab.Length && lab[stack'[k]] == c
    ensures ClosedExcept(xs, near, lab[..], stack')
    ensures forall k :: 0 <= k < lab.Length && old(lab[k]) != Unvisited ==> lab[k] == old(lab[k])
    ensures UnvisitedSet(lab[..]) <= old(UnvisitedSet(lab[..]))
    ensures UnvisitedSet(lab[..]) == old(UnvisitedSet(lab[..])) ==> stack' == stack
    ensures Scanned(xs, near, c, p, old(lab[..]), stack, lab.Length, lab[..], stack')
    ensures forall q :: 0 <= q < lab.Length && near(xs[p], xs[q]) ==> lab[q] == c
  {
    ghost var orig := lab[..];
    var n := lab.Length;
    stack' := stack;
    for q := 0 to n
      invariant ScanInv(xs, near, seeds, c, p, orig, stack, q, lab[..], stack')
      invariant Scanned(xs, near, c, p, orig, stack, q, lab[..], stack')
    {
      stack' := ExaminePoint(xs, near, lab, seeds, c, p, orig, stack, q, stack');
    }
    ScanDone(xs, near, seeds, c, p, orig, stack, lab[..], stack');
  }

  /** One step of the neighbour scan of `p`: point `q` joins cluster `c` and
      is pushed when it is an unvisited neighbour of `p`. */
  method ExaminePoint(xs: seq<Vector>, near: (Vector, Vector) -> bool, lab: array<int>,
                      ghost seeds: seq<nat>, c: int, p: nat, ghost orig: seq<int>, ghost stack: seq<nat>,
                      q: nat, st: seq<nat>)
    returns (st': seq<nat>)
    requires Symmetric(near) && q < lab.Length
    requires ScanInv(xs, near, seeds, c, p, orig, stack, q, lab[..], st)
    requires Scanned(xs, near, c, p, orig, stack, q, lab[..], st)
    modifies lab
    ensures ScanInv(xs, near, seeds, c, p, orig, stack, q + 1, lab[..], st')
    ensures Scanned(xs, near, c, p, orig, stack, q + 1, lab[..], st')
  {
    if near(xs[p], xs[q]) && lab[q] == Unvisited {
      ScanVisit(xs, near, seeds, c, p, orig, stack, q, lab[..], st);
      ScannedVisit(xs, near, c, p, orig, stack, q, lab[..], st);
      lab[q] := c;
      st' := st + [q];
    } else {
      ScanSkip(xs, near, seeds, c, p, orig, stack, q, lab[..], st);
      ScannedSkip(xs, near, c, p, orig, stack, q, lab[..], st);
      st' := st;
    }
  }

  /** Visits the whole cluster of seed `i`, labelled `c`, depth first. */
  method FloodCluster(xs: seq<Vector>, near: (Vector, Vector) -> bool, lab: array<int>,
                      ghost seeds: seq<nat>, c: int, i: nat)
    requires Symmetric(near)
    requires Sound(xs, near, lab[..], seeds) && 0 <= c == |seeds| - 1
    requires i < lab.Length && lab[i] == c
    requires ClosedExcept(xs, near, lab[..], [i])
    modifies lab
    ensures Sound(xs, near, lab[..], seeds)
    ensures ClosedExcept(xs, near, lab[..], [])
    ensures forall k :: 0 <= k < lab.Length && old(lab[k]) != Unvisited ==> lab[k] == old(lab[k])
  {
    var stack: seq<nat> := [i];
    while stack != []
      invariant Sound(xs, near, lab[..], seeds)
      invariant forall k :: 0 <= k < |stack| ==> stack[k] < lab.Length && lab[stack[k]] == c
      invariant ClosedExcept(xs, near, lab[..], stack)
      invariant forall k :: 0 <= k < lab.Length && old(lab[k]) != Unvisited ==> lab[k] == old(lab[k])
      decreases UnvisitedSet(lab[..]), |stack|
    {
      ghost var pending := stack;
      var p := stack[|stack| - 1];
      stack := stack[..|stack| - 1];
      assert stack + [p] == pending;
      stack := VisitNeighbours(xs, near, lab, seeds, c, p, stack);
    }
  }

  /** DBSCAN with `min_samples = 1`: labels every point with the number of
      its connected component. */
  method ComponentLabels(xs: seq<Vector>, near: (Vector, Vector) -> bool) returns (labels: seq<int>)
    requires Symmetric(near)
    ensures forall i :: 0 <= i < |labels| ==> 0 <= labels[i]
    ensures IsComponentLabelling(xs, near, labels)
  {
    var n := |xs|;
    var lab := new int[n](_ => Unvisited);
    ghost var seeds: seq<nat> := [];
    var next := 0;
    for i := 0 to n
      invariant next == |seeds|
      invariant Sound(xs, near, lab[..], seeds)
      invariant ClosedExcept(xs, near, lab[..], [])
      invariant forall k :: 0 <= k < i ==> lab[k] != Unvisited
    {
      if lab[i] == Unvisited {
        StartCluster(xs, near, lab[..], seeds, i);
        lab[i] := next;
        seeds := seeds + [i];
        FloodCluster(xs, near, lab, seeds, next, i);
        next := next + 1;
      }
    }
    labels := lab[..];
    ClosedLabelling(xs, near, labels, seeds);
  }

  /** Point `i`, still unvisited, starts a new cluster. */
  lemma StartCluster(xs: seq<Vector>, near: (Vector, Vector) -> bool, lab: seq<int>, seeds: seq<nat>, i: nat)
    requires Sound(xs, near, lab, seeds) && ClosedExcept(xs, near, lab, [])
    requires i < |lab| && lab[i] == Unvisited
    ensures Sound(xs, near, lab[i := |seeds|], seeds + [i])
    ensures ClosedExcept(xs, near, lab[i := |seeds|], [i])
  {
    ConnectedRefl(xs, near, i);
  }

  /** A labelling with every point visited and closed is a component
      labelling. */
  lemma ClosedLabelling(xs: seq<Vector>, near: (Vector, Vector) -> bool, lab: seq<int>, seeds: seq<nat>)
    requires Symmetric(near)
    requires Sound(xs, near, lab, seeds) && ClosedExcept(xs, near, lab, [])
    requires forall k :: 0 <= k < |lab| ==> lab[k] != Unvisited
    ensures forall i :: 0 <= i < |lab| ==> 0 <= lab[i]
    ensures IsComponentLabelling(xs, near, lab)
  {
    forall i, j | 0 <= i < |xs| && 0 <= j < |xs|
      ensures lab[i] == lab[j] <==> Connected(xs, near, i, j)
    {
      if lab[i] == lab[j] {
        ConnectedSym(xs, near, seeds[lab[i]], i);
        ConnectedTrans(xs, near, i, seeds[lab[i]], j);
      }
      if Connected(xs, near, i, j) {
        var p :| IsPath(xs, near, p, i, j);
        ClosedPath(xs, near, lab, p);
      }
    }
  }

  /** In a labelling where every point is visited and closed, a walk never
      leaves its cluster. */
  lemma {:induction false} ClosedPath(xs: seq<Vector>, near: (Vector, Vector) -> bool, lab: seq<int>, p: seq<nat>)
    requires ClosedExcept(xs, near, lab, [])
    requires forall k :: 0 <= k < |lab| ==> lab[k] != Unvisited
    requires |p| >= 1 && IsPath(xs, near, p, p[0], p[|p| - 1])
    ensures lab[p[0]] == lab[p[|p| - 1]]
    decreases |p|
  {
    if |p| > 1 {
      var p' := p[..|p| - 1];
      assert IsPath(xs, near, p', p'[0], p'[|p'| - 1]);
      ClosedPath(xs, near, lab, p');
      assert near(xs[p[|p| - 2]], xs[p[|p| - 1]]);
    }
  }
}
