/** The longest-path search over the graph of fragment joins
    (buccaneer-join.cpp, Ca_join::longest_chain).  Node i stands for fragment i
    and fwd[i] lists the fragments that may follow it.  Every node starts with
    count 0 and is dirty; taking dirty nodes lowest first, a successor's count
    is raised to one more than its predecessor's when the back-pointer path
    behind the predecessor is "clean" (strictly falling counts, never meeting
    the successor).  The longest chain ends at the lowest node of highest count
    and is read off by following the back pointers. */
module FragmentGraph {

  /** Every forward pointer names a node of the graph. */
  predicate WellFormed(fwd: seq<seq<int>>) {
    forall a, j :: 0 <= a < |fwd| && 0 <= j < |fwd[a]| ==> 0 <= fwd[a][j] < |fwd|
  }

  /** A sequence of nodes, each a forward pointer of the one before it. */
  predicate IsPath(fwd: seq<seq<int>>, path: seq<int>) {
    (forall k :: 0 <= k < |path| ==> 0 <= path[k] < |fwd|) &&
    (forall k :: 0 < k < |path| ==> path[k] in fwd[path[k - 1]])
  }

  /** Each back pointer is -1 or names a node with a forward pointer to this one. */
  predicate BackOk(fwd: seq<seq<int>>, bck: seq<int>) {
    |bck| == |fwd| &&
    forall v :: 0 <= v < |bck| ==> bck[v] == -1 || (0 <= bck[v] < |fwd| && v in fwd[bck[v]])
  }

  /** The nodes whose back pointer is still set. */
  function Linked(bck: seq<int>): set<int> {
    set v | 0 <= v < |bck| && bck[v] >= 0
  }

  /** Every back pointer is -1 or names a node. */
  ghost predicate Ranged(bck: seq<int>) {
    forall u :: 0 <= u < |bck| ==> -1 <= bck[u] < |bck|
  }

  /** No node is its own successor. */
  predicate NoSelfJoins(fwd: seq<seq<int>>) {
    forall a :: 0 <= a < |fwd| ==> a !in fwd[a]
  }

  /** The back-pointer walk from v is clean with respect to `target`: counts
      fall strictly along it, it never reaches `target`, and it ends at a node
      without a back pointer. */
  ghost predicate Clean(counts: seq<nat>, bck: seq<int>, v: nat, target: int)
    requires |counts| == |bck| && v < |bck| && Ranged(bck)
    decreases counts[v]
  {
    bck[v] < 0 ||
    (bck[v] != target && counts[bck[v]] < counts[v] && Clean(counts, bck, bck[v], target))
  }

  /** The back-pointer walk from v reaches a node without a back pointer in
      exactly k steps. */
  ghost predicate Steps(bck: seq<int>, v: int, k: nat)
    requires Ranged(bck)
    decreases k
  {
    0 <= v < |bck| && if k == 0 then bck[v] < 0 else bck[v] >= 0 && Steps(bck, bck[v], k - 1)
  }

  /** The back-pointer walk from v ends. */
  ghost predicate Ends(bck: seq<int>, v: int)
    requires Ranged(bck)
  {
    exists k: nat :: Steps(bck, v, k)
  }

  /** The back pointers have no cycle: every walk ends. */
  ghost predicate Acyclic(bck: seq<int>)
    requires Ranged(bck)
  {
    forall v :: 0 <= v < |bck| ==> Ends(bck, v)
  }

  /** The node i steps back from v (the walk stays put once it ends). */
  ghost function Ancestor(bck: seq<int>, v: int, i: nat): (a: int)
    requires Ranged(bck) && 0 <= v < |bck|
    ensures 0 <= a < |bck|
    decreases i
  {
    if i == 0 || bck[v] < 0 then v else Ancestor(bck, bck[v], i - 1)
  }

  /** The chain is read off the back pointers: each node's back pointer is the
      node before it. */
  ghost predicate Follows(bck: seq<int>, chain: seq<int>) {
    forall k :: 0 < k < |chain| ==> 0 <= chain[k] < |bck| && bck[chain[k]] == chain[k - 1]
  }

  /** The state of the search: a count and a back pointer per node, and the
      set of dirty nodes. */
  datatype Search = Search(counts: seq<nat>, bck: seq<int>, dirty: set<int>)

  /** A search state over n nodes: a count and a back pointer per node, and
      dirty nodes are nodes. */
  ghost predicate Shaped(n: nat, s: Search) {
    |s.counts| == n && |s.bck| == n && Ranged(s.bck) &&
    forall d :: d in s.dirty ==> 0 <= d < n
  }

  /** What the search keeps true: back pointers follow joins, a node without
      back pointer has count 0, and a count is at most one more than its back
      neighbour's. */
  ghost predicate Sane(fwd: seq<seq<int>>, s: Search) {
    Shaped(|fwd|, s) && BackOk(fwd, s.bck) &&
    (forall v {:trigger s.bck[v]} :: 0 <= v < |fwd| && s.bck[v] < 0 ==> s.counts[v] == 0) &&
    (forall v :: 0 <= v < |fwd| && s.bck[v] >= 0 ==> s.counts[v] <= s.counts[s.bck[v]] + 1)
  }

  /** The nodes 0 .. n-1. */
  function Nodes(n: nat): (r: set<int>)
    ensures forall d :: d in r <==> 0 <= d < n
  {
    if n == 0 then {} else Nodes(n - 1) + {n - 1}
  }

  /** The initial state: counts 0, no back pointers, every node dirty. */
  ghost function Start(n: nat): Search {
    Search(seq(n, i => 0), seq(n, i => -1), Nodes(n))
  }

  /** A non-empty set has a member. */
  lemma HasMember(s: set<int>)
    requires s != {}
    ensures exists y :: y in s
  {
    if forall z :: z !in s {
      assert false;
    }
  }

  /** The least element of a non-empty finite set. */
  ghost function Least(s: set<int>): (m: int)
    requires s != {}
    ensures m in s && forall x :: x in s ==> m <= x
  {
    HasMember(s);
    var y :| y in s;
    if s == {y} then y
    else
      var m' := Least(s - {y});
      assert forall x :: x in s && x != y ==> x in s - {y};
      if y < m' then y else m'
  }

  /** Processing one child `next` of `node`: when its count is below node's
      count + 1 and the route back from `node` is clean, it gets node's count
      + 1, a back pointer to `node`, and becomes dirty. */
  ghost function Update(fwd: seq<seq<int>>, node: nat, next: int, s: Search): (r: Search)
    requires node < |fwd| && 0 <= next < |fwd| && Shaped(|fwd|, s)
    ensures Shaped(|fwd|, r)
  {
    if s.counts[next] < s.counts[node] + 1 && Clean(s.counts, s.bck, node, next)
    then Search(s.counts[next := s.counts[node] + 1], s.bck[next := node], s.dirty + {next})
    else s
  }

  /** Processing children j.. of `node`: a child whose count is below
      node's count + 1 and whose route back from `node` is clean gets node's
      count + 1, a back pointer to `node`, and becomes dirty; the others are
      left alone.  Counts never fall, dirty nodes stay dirty, and only
      children of `node` change. */
  ghost function RelaxFrom(fwd: seq<seq<int>>, node: nat, j: nat, s: Search): (r: Search)
    requires WellFormed(fwd) && node < |fwd| && j <= |fwd[node]| && Shaped(|fwd|, s)
    ensures Shaped(|fwd|, r)
    decreases |fwd[node]| - j
  {
    if j == |fwd[node]| then s
    else
      RelaxFrom(fwd, node, j + 1, Update(fwd, node, fwd[node][j], s))
  }

  /** One round of the propagation loop: take the lowest dirty node, remove
      it from the dirty set and process its children. */
  ghost function Round(fwd: seq<seq<int>>, s: Search): (r: Search)
    requires WellFormed(fwd) && Shaped(|fwd|, s) && s.dirty != {}
    ensures Shaped(|fwd|, r)
  {
    var node := Least(s.dirty);
    RelaxFrom(fwd, node, 0, Search(s.counts, s.bck, s.dirty - {node}))
  }

  /** RelaxFrom takes one child at a time. */
  lemma RelaxFromStep(fwd: seq<seq<int>>, node: nat, j: nat, s: Search)
    requires WellFormed(fwd) && node < |fwd| && j < |fwd[node]| && Shaped(|fwd|, s)
    ensures RelaxFrom(fwd, node, j, s) == RelaxFrom(fwd, node, j + 1, Update(fwd, node, fwd[node][j], s))
  {
  }

  /** The propagation loop, for at most `rounds` rounds. */
  ghost function Propagate(fwd: seq<seq<int>>, s: Search, rounds: nat): (r: Search)
    requires WellFormed(fwd) && Shaped(|fwd|, s)
    ensures Shaped(|fwd|, r)
    decreases rounds
  {
    if s.dirty == {} || rounds == 0 then s else Propagate(fwd, Round(fwd, s), rounds - 1)
  }

  /** The counts and back pointers after at most `fuel` rounds. */
  ghost function Relaxed(fwd: seq<seq<int>>, fuel: nat): Search
    requires WellFormed(fwd)
  {
    assert Shaped(|fwd|, Start(|fwd|));
    Propagate(fwd, Start(|fwd|), fuel)
  }

  /** Processing a node's children never lowers a count and keeps every dirty
      node dirty.  Only children of the node change: a changed back pointer
      points at the node, and a child whose count changed is dirty. */
  lemma {:induction false} RelaxFromFrame(fwd: seq<seq<int>>, node: nat, j: nat, s: Search)
    requires WellFormed(fwd) && node < |fwd| && j <= |fwd[node]| && Shaped(|fwd|, s)
    ensures var r := RelaxFrom(fwd, node, j, s);
      s.dirty <= r.dirty &&
      (forall v :: 0 <= v < |fwd| ==> s.counts[v] <= r.counts[v]) &&
      (forall v :: 0 <= v < |fwd| && r.bck[v] != s.bck[v] ==> r.bck[v] == node && v in fwd[node]) &&
      (forall v :: 0 <= v < |fwd| && r.counts[v] != s.counts[v] ==> v in r.dirty && v in fwd[node])
    decreases |fwd[node]| - j
  {
    if j < |fwd[node]| {
      RelaxFromFrame(fwd, node, j + 1, Update(fwd, node, fwd[node][j], s));
    }
  }

  /** Counts never fall during the propagation. */
  lemma {:induction false} PropagateMonotone(fwd: seq<seq<int>>, s: Search, rounds: nat)
    requires WellFormed(fwd) && Shaped(|fwd|, s)
    ensures forall v :: 0 <= v < |fwd| ==> s.counts[v] <= Propagate(fwd, s, rounds).counts[v]
    decreases rounds, 1
  {
    if s.dirty != {} && rounds > 0 {
      RoundMonotone(fwd, s);
      PropagateMonotoneAfterRound(fwd, s, rounds);
    }
  }

  /** One round never lowers a count. */
  lemma RoundMonotone(fwd: seq<seq<int>>, s: Search)
    requires WellFormed(fwd) && Shaped(|fwd|, s) && s.dirty != {}
    ensures forall v :: 0 <= v < |fwd| ==> s.counts[v] <= Round(fwd, s).counts[v]
  {
    var node := Least(s.dirty);
    RelaxFromFrame(fwd, node, 0, Search(s.counts, s.bck, s.dirty - {node}));
  }

  /** The inductive step of PropagateMonotone. */
  lemma {:induction false} PropagateMonotoneAfterRound(fwd: seq<seq<int>>, s: Search, rounds: nat)
    requires WellFormed(fwd) && Shaped(|fwd|, s) && s.dirty != {} && rounds > 0
    requires forall v :: 0 <= v < |fwd| ==> s.counts[v] <= Round(fwd, s).counts[v]
    ensures forall v :: 0 <= v < |fwd| ==> s.counts[v] <= Propagate(fwd, s, rounds).counts[v]
    decreases rounds, 0
  {
    PropagateMonotone(fwd, Round(fwd, s), rounds - 1);
  }

  /** Processing one child of a node keeps the search sane. */
  lemma UpdateSane(fwd: seq<seq<int>>, node: nat, next: int, s: Search)
    requires node < |fwd| && next in fwd[node] && 0 <= next < |fwd| && Sane(fwd, s)
    ensures Sane(fwd, Update(fwd, node, next, s))
  {
    if s.counts[next] < s.counts[node] + 1 && Clean(s.counts, s.bck, node, next) {
      RaiseSane(fwd, node, next, s);
    }
  }

  /** Raising `next`, a successor of `node`, to node's count + 1 and pointing
      it back at `node` keeps the search sane. */
  lemma RaiseSane(fwd: seq<seq<int>>, node: nat, next: nat, s: Search)
    requires node < |fwd| && next < |fwd| && next in fwd[node] && Sane(fwd, s)
    requires s.counts[next] < s.counts[node] + 1
    ensures Sane(fwd, Search(s.counts[next := s.counts[node] + 1], s.bck[next := node], s.dirty + {next}))
  {
    var c, b := s.counts[next := s.counts[node] + 1], s.bck[next := node];
    forall v | 0 <= v < |fwd| && b[v] >= 0
      ensures c[v] <= c[b[v]] + 1
    {
      if v != next {
        assert c[v] == s.counts[v] && b[v] == s.bck[v];
      }
    }
  }

  /** Processing a node's children keeps the search sane. */
  lemma {:induction false} RelaxFromSane(fwd: seq<seq<int>>, node: nat, j: nat, s: Search)
    requires WellFormed(fwd) && node < |fwd| && j <= |fwd[node]| && Sane(fwd, s)
    ensures Sane(fwd, RelaxFrom(fwd, node, j, s))
    decreases |fwd[node]| - j
  {
    if j < |fwd[node]| {
      UpdateSane(fwd, node, fwd[node][j], s);
      RelaxFromSane(fwd, node, j + 1, Update(fwd, node, fwd[node][j], s));
    }
  }

  /** One round keeps the search sane. */
  lemma RoundSane(fwd: seq<seq<int>>, s: Search)
    requires WellFormed(fwd) && Sane(fwd, s) && s.dirty != {}
    ensures Sane(fwd, Round(fwd, s))
  {
    var node := Least(s.dirty);
    RelaxFromSane(fwd, node, 0, Search(s.counts, s.bck, s.dirty - {node}));
  }

  /** The propagation keeps the search sane. */
  lemma {:induction false} PropagateSane(fwd: seq<seq<int>>, s: Search, rounds: nat)
    requires WellFormed(fwd) && Sane(fwd, s)
    ensures Sane(fwd, Propagate(fwd, s, rounds))
    decreases rounds, 1
  {
    if s.dirty != {} && rounds > 0 {
      RoundSane(fwd, s);
      PropagateSaneAfterRound(fwd, s, rounds);
    }
  }

  /** The inductive step of PropagateSane. */
  lemma {:induction false} PropagateSaneAfterRound(fwd: seq<seq<int>>, s: Search, rounds: nat)
    requires WellFormed(fwd) && Shaped(|fwd|, s) && s.dirty != {} && rounds > 0
    requires Sane(fwd, Round(fwd, s))
    ensures Sane(fwd, Propagate(fwd, s, rounds))
    decreases rounds, 0
  {
    PropagateSane(fwd, Round(fwd, s), rounds - 1);
  }

  /** The search ends sane: back pointers follow joins and a count is at
      most one more than its back neighbour's. */
  lemma RelaxedSane(fwd: seq<seq<int>>, fuel: nat)
    requires WellFormed(fwd)
    ensures Sane(fwd, Relaxed(fwd, fuel))
  {
    PropagateSane(fwd, Start(|fwd|), fuel);
  }

  /** Walking back i steps from the i-th node of a chain that follows the
      back pointers reaches its first node. */
  lemma {:induction false} FollowsSteps(bck: seq<int>, chain: seq<int>, i: nat, k: nat)
    requires Ranged(bck) && Follows(bck, chain) && i < |chain|
    requires forall j :: 0 <= j < |chain| ==> 0 <= chain[j] < |bck|
    requires Steps(bck, chain[i], k)
    ensures i <= k && Steps(bck, chain[0], k - i)
    decreases i
  {
    if i > 0 {
      FollowsSteps(bck, chain, i - 1, k - 1);
    }
  }

  /** With acyclic back pointers a chain that follows them never comes back
      to its first node. */
  lemma AcyclicNoReturn(bck: seq<int>, chain: seq<int>)
    requires Ranged(bck) && Acyclic(bck) && Follows(bck, chain) && |chain| > 0
    requires forall j :: 0 <= j < |chain| ==> 0 <= chain[j] < |bck|
    ensures chain[0] !in chain[1..]
  {
    if chain[0] in chain[1..] {
      var i :| 1 <= i < |chain| && chain[i] == chain[0];
      assert Ends(bck, chain[i]);
      var k: nat :| Steps(bck, chain[i], k);
      FollowsSteps(bck, chain, i, k);
      StepsUnique(bck, chain[0], k, k - i);
    }
  }

  /** A walk ends in only one number of steps. */
  lemma {:induction false} StepsUnique(bck: seq<int>, v: int, a: nat, b: nat)
    requires Ranged(bck) && Steps(bck, v, a) && Steps(bck, v, b)
    ensures a == b
    decreases a
  {
    if a > 0 && b > 0 {
      StepsUnique(bck, bck[v], a - 1, b - 1);
    }
  }

  /** The back walk from v ends after k steps, never meets `target` after v,
      and counts fall strictly along it. */
  ghost predicate CleanSteps(counts: seq<nat>, bck: seq<int>, v: nat, target: int, k: nat)
    requires |counts| == |bck| && v < |bck| && Ranged(bck)
  {
    Steps(bck, v, k) &&
    (forall i :: 1 <= i <= k ==> Ancestor(bck, v, i) != target) &&
    (forall i :: 1 <= i <= k ==> counts[Ancestor(bck, v, i)] < counts[Ancestor(bck, v, i - 1)])
  }

  /** What a clean walk is, one way: a clean walk has some such k. */
  lemma {:induction false} CleanWalkEnds(counts: seq<nat>, bck: seq<int>, v: nat, target: int)
    requires |counts| == |bck| && v < |bck| && Ranged(bck)
    requires Clean(counts, bck, v, target)
    ensures exists k: nat :: CleanSteps(counts, bck, v, target, k)
    decreases counts[v]
  {
    if bck[v] < 0 {
      assert CleanSteps(counts, bck, v, target, 0);
    } else {
      var u := bck[v];
      CleanWalkEnds(counts, bck, u, target);
      var k: nat :| CleanSteps(counts, bck, u, target, k);
      assert Steps(bck, v, k + 1);
      forall i | 1 <= i <= k + 1
        ensures Ancestor(bck, v, i) != target
        ensures counts[Ancestor(bck, v, i)] < counts[Ancestor(bck, v, i - 1)]
      {
        assert Ancestor(bck, v, i) == Ancestor(bck, u, i - 1);
        if i > 1 {
          assert Ancestor(bck, v, i - 1) == Ancestor(bck, u, i - 2);
        }
      }
      assert CleanSteps(counts, bck, v, target, k + 1);
    }
  }

  /** The other way: a back walk that ends, avoids `target` and has strictly
      falling counts is clean. */
  lemma {:induction false} WalkClean(counts: seq<nat>, bck: seq<int>, v: nat, target: int, k: nat)
    requires |counts| == |bck| && v < |bck| && Ranged(bck) && CleanSteps(counts, bck, v, target, k)
    ensures Clean(counts, bck, v, target)
    decreases k
  {
    if k > 0 {
      var u := bck[v];
      assert Ancestor(bck, v, 1) == u && Ancestor(bck, v, 0) == v;
      forall i | 1 <= i <= k - 1
        ensures Ancestor(bck, u, i) != target
        ensures counts[Ancestor(bck, u, i)] < counts[Ancestor(bck, u, i - 1)]
      {
        assert Ancestor(bck, v, i + 1) == Ancestor(bck, u, i);
        assert Ancestor(bck, v, i) == Ancestor(bck, u, i - 1);
      }
      WalkClean(counts, bck, u, target, k - 1);
    }
  }

  /** Re-pointing `t` anywhere keeps the walk from v ending when that walk
      is clean with respect to t. */
  lemma {:induction false} CleanSurvivesRepoint(counts: seq<nat>, bck: seq<int>, v: nat, t: nat, x: int)
    requires |counts| == |bck| && v < |bck| && t < |bck| && -1 <= x < |bck| && Ranged(bck)
    requires v != t && Clean(counts, bck, v, t)
    ensures Ranged(bck[t := x]) && Ends(bck[t := x], v)
    decreases counts[v]
  {
    var b' := bck[t := x];
    if bck[v] < 0 {
      assert Steps(b', v, 0);
    } else {
      CleanSurvivesRepoint(counts, bck, bck[v], t, x);
      var k: nat :| Steps(b', bck[v], k);
      assert Steps(b', v, k + 1);
    }
  }

  /** A walk that ended before `t` was re-pointed still ends, once t's own
      walk does. */
  lemma {:induction false} WalkSurvivesRepoint(bck: seq<int>, v: int, k: nat, t: nat, x: int)
    requires Ranged(bck) && t < |bck| && -1 <= x < |bck| && Steps(bck, v, k)
    requires Ranged(bck[t := x]) && Ends(bck[t := x], t)
    ensures Ends(bck[t := x], v)
    decreases k
  {
    var b' := bck[t := x];
    if v != t {
      if k == 0 {
        assert Steps(b', v, 0);
      } else {
        WalkSurvivesRepoint(bck, bck[v], k - 1, t, x);
        var k': nat :| Steps(b', bck[v], k');
        assert Steps(b', v, k' + 1);
      }
    }
  }

  /** Re-pointing a child at a node whose clean walk avoids it keeps the back
      pointers acyclic. */
  lemma {:induction false} RepointAcyclic(counts: seq<nat>, bck: seq<int>, node: nat, next: nat)
    requires |counts| == |bck| && node < |bck| && next < |bck| && Ranged(bck) && Acyclic(bck)
    requires node != next && Clean(counts, bck, node, next)
    ensures Ranged(bck[next := node]) && Acyclic(bck[next := node])
  {
    var b' := bck[next := node];
    CleanSurvivesRepoint(counts, bck, node, next, node);
    var k0: nat :| Steps(b', node, k0);
    assert Steps(b', next, k0 + 1);
    forall v | 0 <= v < |b'|
      ensures Ends(b', v)
    {
      assert Ends(bck, v);
      var k: nat :| Steps(bck, v, k);
      WalkSurvivesRepoint(bck, v, k, next, node);
    }
  }

  /** Without self-joins, processing a node's children keeps the back
      pointers acyclic. */
  lemma {:induction false} RelaxFromAcyclic(fwd: seq<seq<int>>, node: nat, j: nat, s: Search)
    requires WellFormed(fwd) && NoSelfJoins(fwd) && node < |fwd| && j <= |fwd[node]| && Shaped(|fwd|, s)
    requires Acyclic(s.bck)
    ensures Acyclic(RelaxFrom(fwd, node, j, s).bck)
    decreases |fwd[node]| - j
  {
    if j < |fwd[node]| {
      var next := fwd[node][j];
      if s.counts[next] < s.counts[node] + 1 && Clean(s.counts, s.bck, node, next) {
        RepointAcyclic(s.counts, s.bck, node, next);
      }
      RelaxFromAcyclic(fwd, node, j + 1, Update(fwd, node, next, s));
    }
  }

  /** Without self-joins, one round keeps the back pointers acyclic. */
  lemma RoundAcyclic(fwd: seq<seq<int>>, s: Search)
    requires WellFormed(fwd) && NoSelfJoins(fwd) && Shaped(|fwd|, s) && Acyclic(s.bck) && s.dirty != {}
    ensures Acyclic(Round(fwd, s).bck)
  {
    var node := Least(s.dirty);
    RelaxFromAcyclic(fwd, node, 0, Search(s.counts, s.bck, s.dirty - {node}));
  }

  /** Without self-joins, the propagation keeps the back pointers acyclic. */
  lemma {:induction false} PropagateAcyclic(fwd: seq<seq<int>>, s: Search, rounds: nat)
    requires WellFormed(fwd) && NoSelfJoins(fwd) && Shaped(|fwd|, s) && Acyclic(s.bck)
    ensures Acyclic(Propagate(fwd, s, rounds).bck)
    decreases rounds, 1
  {
    if s.dirty != {} && rounds > 0 {
      RoundAcyclic(fwd, s);
      PropagateAcyclicAfterRound(fwd, s, rounds);
    }
  }

  /** The inductive step of PropagateAcyclic, once the first round is known
      to keep the back pointers acyclic. */
  lemma {:induction false} PropagateAcyclicAfterRound(fwd: seq<seq<int>>, s: Search, rounds: nat)
    requires WellFormed(fwd) && NoSelfJoins(fwd) && Shaped(|fwd|, s) && s.dirty != {} && rounds > 0
    requires Acyclic(Round(fwd, s).bck)
    ensures Acyclic(Propagate(fwd, s, rounds).bck)
    decreases rounds, 0
  {
    PropagateAcyclic(fwd, Round(fwd, s), rounds - 1);
  }

  /** Without self-joins, the back pointers of the search are acyclic. */
  lemma RelaxedAcyclic(fwd: seq<seq<int>>, fuel: nat)
    requires WellFormed(fwd) && NoSelfJoins(fwd)
    ensures Acyclic(Relaxed(fwd, fuel).bck)
  {
    var s := Start(|fwd|);
    forall v | 0 <= v < |fwd|
      ensures Ends(s.bck, v)
    {
      assert Steps(s.bck, v, 0);
    }
    PropagateAcyclic(fwd, s, fuel);
  }

  /** Counts rise by at most one per back pointer, so a chain read off the
      back pointers from a node without one is longer than its last count. */
  lemma {:induction false} FollowedCount(fwd: seq<seq<int>>, s: Search, chain: seq<int>)
    requires Sane(fwd, s) && |chain| > 0 && 0 <= chain[0] < |fwd| && s.bck[chain[0]] < 0
    requires Follows(s.bck, chain)
    ensures s.counts[chain[|chain| - 1]] < |chain|
  {
    if |chain| > 1 {
      var front := chain[..|chain| - 1];
      assert Follows(s.bck, front);
      FollowedCount(fwd, s, front);
    }
  }

  /** The loop check of longest_chain: walk back from `node` while counts fall
      and `target` is not met; the path is clean when the walk ends at a node
      without a back pointer. */
  method WalkBack(counts: seq<nat>, bck: seq<int>, node: nat, target: int) returns (clean: bool)
    requires |counts| == |bck| && node < |bck| && Ranged(bck)
    ensures clean == Clean(counts, bck, node, target)
  {
    var back: int := node;
    while bck[back] >= 0
      invariant 0 <= back < |bck|
      invariant Clean(counts, bck, node, target) == Clean(counts, bck, back, target)
      decreases counts[back]
    {
      var backNext := bck[back];
      if backNext == target {
        break;
      }
      if counts[backNext] >= counts[back] {
        break;
      }
      back := backNext;
    }
    clean := bck[back] < 0;
  }

  /** One child of the loop over a node's children: the count test, the
      loop check and the update, as Update describes. */
  method VisitChild(fwd: seq<seq<int>>, node: nat, next: int, counts: seq<nat>, bck: seq<int>, dirty: set<int>)
    returns (counts': seq<nat>, bck': seq<int>, dirty': set<int>)
    requires node < |fwd| && next in fwd[node] && 0 <= next < |fwd| && Shaped(|fwd|, Search(counts, bck, dirty))
    ensures Search(counts', bck', dirty') == Update(fwd, node, next, Search(counts, bck, dirty))
  {
    counts', bck', dirty' := counts, bck, dirty;
    if counts[next] < counts[node] + 1 {
      var clean := WalkBack(counts, bck, node, next);
      if clean {
        counts' := counts[next := counts[node] + 1];
        bck' := bck[next := node];
        dirty' := dirty + {next};
      }
    }
  }

  /** Processes the children of one dirty node, as RelaxFrom describes. */
  method Relax(fwd: seq<seq<int>>, node: nat, counts: seq<nat>, bck: seq<int>, dirty: set<int>)
    returns (counts': seq<nat>, bck': seq<int>, dirty': set<int>)
    requires WellFormed(fwd) && node < |fwd| && Shaped(|fwd|, Search(counts, bck, dirty))
    ensures Search(counts', bck', dirty') == RelaxFrom(fwd, node, 0, Search(counts, bck, dirty))
  {
    counts', bck', dirty' := counts, bck, dirty;
    var j := 0;
    while j < |fwd[node]|
      invariant 0 <= j <= |fwd[node]| && Shaped(|fwd|, Search(counts', bck', dirty'))
      invariant RelaxFrom(fwd, node, j, Search(counts', bck', dirty')) == RelaxFrom(fwd, node, 0, Search(counts, bck, dirty))
    {
      RelaxFromStep(fwd, node, j, Search(counts', bck', dirty'));
      counts', bck', dirty' := VisitChild(fwd, node, fwd[node][j], counts', bck', dirty');
      j := j + 1;
    }
  }

  /** The lowest-index node of highest count. */
  method FirstArgMax(counts: seq<nat>) returns (m: nat)
    requires |counts| > 0
    ensures m < |counts|
    ensures forall v :: 0 <= v < |counts| ==> counts[v] <= counts[m]
    ensures forall v :: 0 <= v < m ==> counts[v] < counts[m]
  {
    m := 0;
    var i := 1;
    while i < |counts|
      invariant 1 <= i <= |counts| && m < i
      invariant forall v :: 0 <= v < i ==> counts[v] <= counts[m]
      invariant forall v :: 0 <= v < m ==> counts[v] < counts[m]
    {
      if counts[i] > counts[m] {
        m := i;
      }
      i := i + 1;
    }
  }

  /** The back-trace: follows back pointers from `last`, clearing each one as
      it is used, and returns the nodes in forward order.  (The source appends
      and reverses at the end; prepending gives the same sequence.)  The trace
      stops at a node without a back pointer, or at one whose pointer it has
      already cleared; with acyclic back pointers only the first can happen. */
  method TraceBack(fwd: seq<seq<int>>, bck: seq<int>, last: nat) returns (chain: seq<int>)
    requires last < |fwd| && BackOk(fwd, bck)
    ensures |chain| > 0 && chain[|chain| - 1] == last && IsPath(fwd, chain)
    ensures Follows(bck, chain)
    ensures bck[chain[0]] < 0 || chain[0] in chain[1..]
    ensures Ranged(bck) && (Acyclic(bck) ==> bck[chain[0]] < 0)
  {
    var b := bck;
    var node := last;
    chain := [node];
    while b[node] >= 0
      invariant BackOk(fwd, b) && node < |fwd|
      invariant |chain| > 0 && chain[0] == node && chain[|chain| - 1] == last
      invariant IsPath(fwd, chain) && Follows(bck, chain)
      invariant forall v :: 0 <= v < |b| ==> b[v] == bck[v] || (b[v] == -1 && v in chain[1..])
      decreases |Linked(b)|
    {
      var next := b[node];
      ghost var before := b;
      b := b[node := -1];
      assert Linked(b) == Linked(before) - {node};
      chain := [next] + chain;
      node := next;
    }
    if Acyclic(bck) {
      AcyclicNoReturn(bck, chain);
    }
  }

  /** One round of the propagation loop: take the lowest dirty node off the
      dirty set and relax its children. */
  method ProcessLowest(fwd: seq<seq<int>>, counts: seq<nat>, bck: seq<int>, dirty: set<int>)
    returns (counts': seq<nat>, bck': seq<int>, dirty': set<int>)
    requires WellFormed(fwd) && Shaped(|fwd|, Search(counts, bck, dirty)) && dirty != {}
    ensures Search(counts', bck', dirty') == Round(fwd, Search(counts, bck, dirty))
  {
    ghost var least := Least(dirty);
    var node :| node in dirty && forall d :: d in dirty ==> node <= d;
    assert node == least;
    counts', bck', dirty' := Relax(fwd, node, counts, bck, dirty - {node});
  }

  /** The loop starts: the nodes whose count is 0. */
  method LoopStarts(counts: seq<nat>) returns (dirty: set<int>)
    ensures forall d :: d in dirty <==> 0 <= d < |counts| && counts[d] == 0
  {
    dirty := {};
    var i := 0;
    while i < |counts|
      invariant 0 <= i <= |counts|
      invariant forall d :: d in dirty <==> 0 <= d < i && counts[d] == 0
    {
      if counts[i] == 0 {
        dirty := dirty + {i};
      }
      i := i + 1;
    }
  }

  /** The propagation loop: rounds until no node is dirty or `fuel` rounds
      have run. */
  method Rounds(fwd: seq<seq<int>>, counts: seq<nat>, bck: seq<int>, dirty: set<int>, fuel: nat)
    returns (counts': seq<nat>, bck': seq<int>, dirty': set<int>)
    requires WellFormed(fwd) && Shaped(|fwd|, Search(counts, bck, dirty))
    ensures Search(counts', bck', dirty') == Propagate(fwd, Search(counts, bck, dirty), fuel)
  {
    counts', bck', dirty' := counts, bck, dirty;
    var rounds := fuel;
    ghost var goal := Propagate(fwd, Search(counts, bck, dirty), fuel);
    while dirty' != {} && rounds > 0
      invariant Shaped(|fwd|, Search(counts', bck', dirty'))
      invariant Propagate(fwd, Search(counts', bck', dirty'), rounds) == goal
      decreases rounds
    {
      counts', bck', dirty' := ProcessLowest(fwd, counts', bck', dirty');
      rounds := rounds - 1;
    }
  }

  /** The propagation: every node starts dirty with count 0 and no back
      pointer; each round takes the lowest dirty node and relaxes its
      children, until no node is dirty or `fuel` rounds have run. */
  method Propagation(fwd: seq<seq<int>>, fuel: nat) returns (nodeCount: seq<nat>, bck: seq<int>)
    requires WellFormed(fwd)
    ensures nodeCount == Relaxed(fwd, fuel).counts && bck == Relaxed(fwd, fuel).bck
  {
    nodeCount := seq(|fwd|, _ => 0);
    var dirty := LoopStarts(nodeCount);
    assert dirty == Nodes(|fwd|);
    bck := seq(|fwd|, _ => -1);
    assert Search(nodeCount, bck, dirty) == Start(|fwd|);
    nodeCount, bck, dirty := Rounds(fwd, nodeCount, bck, dirty, fuel);
  }

  /** What longest_chain returns for the graph `fwd` when the propagation
      runs at most `fuel` rounds: a path of the graph that ends at the lowest
      node of highest count and is read off the back pointers of the search,
      starting at a node without a back pointer or at a node the trace has
      already passed (which only a self-join allows). */
  ghost predicate LongestChainOf(fwd: seq<seq<int>>, fuel: nat, chain: seq<int>)
    requires WellFormed(fwd)
  {
    var r := Relaxed(fwd, fuel);
    |chain| > 0 && IsPath(fwd, chain) &&
    (forall v :: 0 <= v < |fwd| ==> r.counts[v] <= r.counts[chain[|chain| - 1]]) &&
    (forall v :: 0 <= v < chain[|chain| - 1] ==> r.counts[v] < r.counts[chain[|chain| - 1]]) &&
    Follows(r.bck, chain) &&
    (r.bck[chain[0]] < 0 || chain[0] in chain[1..])
  }

  /** Two chains read off the same back pointers, from the same last node back
      to nodes without a back pointer, are the same chain. */
  lemma {:induction false} FollowedUnique(bck: seq<int>, c1: seq<int>, c2: seq<int>)
    requires |c1| > 0 && |c2| > 0 && c1[|c1| - 1] == c2[|c2| - 1]
    requires forall j :: 0 <= j < |c1| ==> 0 <= c1[j] < |bck|
    requires forall j :: 0 <= j < |c2| ==> 0 <= c2[j] < |bck|
    requires Follows(bck, c1) && Follows(bck, c2) && bck[c1[0]] < 0 && bck[c2[0]] < 0
    ensures c1 == c2
    decreases |c1|
  {
    var last := c1[|c1| - 1];
    assert |c1| > 1 ==> bck[last] == c1[|c1| - 2] >= 0;
    assert |c2| > 1 ==> bck[last] == c2[|c2| - 2] >= 0;
    if |c1| > 1 {
      var f1, f2 := c1[..|c1| - 1], c2[..|c2| - 1];
      assert Follows(bck, f1) && Follows(bck, f2);
      FollowedUnique(bck, f1, f2);
      assert c1 == f1 + [last] && c2 == f2 + [last];
    }
  }

  /** Without self-joins the graph and the fuel determine the chain that
      longest_chain returns. */
  lemma LongestChainOfUnique(fwd: seq<seq<int>>, fuel: nat, c1: seq<int>, c2: seq<int>)
    requires WellFormed(fwd) && NoSelfJoins(fwd)
    requires LongestChainOf(fwd, fuel, c1) && LongestChainOf(fwd, fuel, c2)
    ensures c1 == c2
  {
    var r := Relaxed(fwd, fuel);
    RelaxedAcyclic(fwd, fuel);
    AcyclicNoReturn(r.bck, c1);
    AcyclicNoReturn(r.bck, c2);
    var l1, l2 := c1[|c1| - 1], c2[|c2| - 1];
    assert r.counts[l2] <= r.counts[l1] && r.counts[l1] <= r.counts[l2];
    assert l1 == l2;
    FollowedUnique(r.bck, c1, c2);
  }

  /** The longest chain through the join graph.  `fuel` bounds the rounds of
      the propagation loop.  The counts are those of the search run for that
      many rounds, and the chain is the one LongestChainOf describes.  With no
      self-joins it starts at a node without a back pointer and is longer
      than its last node's count. */
  method LongestChain(fwd: seq<seq<int>>, fuel: nat) returns (chain: seq<int>, ghost counts: seq<nat>)
    requires |fwd| > 0 && WellFormed(fwd)
    ensures counts == Relaxed(fwd, fuel).counts && |counts| == |fwd|
    ensures LongestChainOf(fwd, fuel, chain)
    ensures NoSelfJoins(fwd) ==> Relaxed(fwd, fuel).bck[chain[0]] < 0 && counts[chain[|chain| - 1]] < |chain|
  {
    ghost var r := Relaxed(fwd, fuel);
    RelaxedSane(fwd, fuel);
    var nodeCount, bck := Propagation(fwd, fuel);
    var nodeMax := FirstArgMax(nodeCount);
    chain := TraceBack(fwd, bck, nodeMax);
    counts := nodeCount;
    if NoSelfJoins(fwd) {
      RelaxedAcyclic(fwd, fuel);
      FollowedCount(fwd, r, chain);
    }
  }
}
