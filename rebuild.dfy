/** The segment rebuilder (Ca_correct::best_rebuild_sequence): given the
    first moved position p, it asks the loop-closure search for candidate
    coordinates of the eight backbone atoms from the C of residue p-1 to the N
    of residue p+2, scores the chain with each candidate in place, and keeps
    the first candidate with the lowest score. */
module Rebuild {
  import opened Common
  import opened ChainModel

  /** The score reported when nothing could be rebuilt. */
  const Sentinel: real := 1000000000000.0

  /** The chain reported when nothing could be rebuilt (a default MPolymer). */
  const NullPolymer: Polymer := Polymer("", [])

  /** The 14 atoms the rebuilder looks up are all present: the C of residue
      p-2, the N, CA and C of residues p-1 to p+2, and the N of residue p+3. */
  predicate AtomsPresent(rs: seq<Residue>, p: int)
    requires 2 <= p && p + 3 < |rs|
  {
    rs[p - 2].c.Some? &&
    rs[p - 1].n.Some? && rs[p - 1].ca.Some? && rs[p - 1].c.Some? &&
    rs[p].n.Some? && rs[p].ca.Some? && rs[p].c.Some? &&
    rs[p + 1].n.Some? && rs[p + 1].ca.Some? && rs[p + 1].c.Some? &&
    rs[p + 2].n.Some? && rs[p + 2].ca.Some? && rs[p + 2].c.Some? &&
    rs[p + 3].n.Some?
  }

  /** The candidates of the loop-closure search, anchored on the C of p-2,
      the N and CA of p-1, the CA and C of p+2 and the N of p+3. */
  function Candidates(svc: Services, rs: seq<Residue>, p: int): seq<Closure>
    requires 2 <= p && p + 3 < |rs| && AtomsPresent(rs, p)
  {
    svc.closeLoop(rs[p - 2].c.value, rs[p - 1].n.value, rs[p - 1].ca.value,
                  rs[p + 2].ca.value, rs[p + 2].c.value, rs[p + 3].n.value)
  }

  /** The chain with one candidate's coordinates written in. */
  function Placed(rs: seq<Residue>, p: int, x: Closure): (r: seq<Residue>)
    requires 2 <= p && p + 3 < |rs|
    ensures |r| == |rs|
  {
    rs[p - 1 := rs[p - 1].(c := Some(x.c1))]
      [p := rs[p].(n := Some(x.n2), ca := Some(x.ca2), c := Some(x.c2))]
      [p + 1 := rs[p + 1].(n := Some(x.n3), ca := Some(x.ca3), c := Some(x.c3))]
      [p + 2 := rs[p + 2].(n := Some(x.n4))]
  }

  /** Only the eight rebuilt atoms change: residue types, every residue
      outside p-1..p+2, and the anchor atoms of p-1 and p+2 stay as they
      were, and all 14 looked-up atoms remain present. */
  lemma PlacedChangesOnlyEightAtoms(rs: seq<Residue>, p: int, x: Closure)
    requires 2 <= p && p + 3 < |rs|
    ensures var r := Placed(rs, p, x);
      Types(r) == Types(rs) &&
      (forall k :: 0 <= k < |rs| && (k < p - 1 || k > p + 2) ==> r[k] == rs[k]) &&
      r[p - 1].n == rs[p - 1].n && r[p - 1].ca == rs[p - 1].ca &&
      r[p + 2].ca == rs[p + 2].ca && r[p + 2].c == rs[p + 2].c &&
      (AtomsPresent(rs, p) ==> AtomsPresent(r, p))
  {
  }

  /** The score of the chain with candidate x in place. */
  function CandidateScore(svc: Services, rs: seq<Residue>, p: int, x: Closure): real
    requires 2 <= p && p + 3 < |rs|
  {
    ChainScore(svc, Placed(rs, p, x))
  }

  /** Each candidate's score and the chain with it in place, in order. */
  function Tries(svc: Services, mp: Polymer, p: int, cands: seq<Closure>): (ts: seq<(real, Polymer)>)
    requires 2 <= p && p + 3 < |mp.residues|
    ensures |ts| == |cands|
  {
    seq(|cands|, j requires 0 <= j < |cands| =>
      (CandidateScore(svc, mp.residues, p, cands[j]), Polymer(mp.id, Placed(mp.residues, p, cands[j]))))
  }

  /** The running best over a list of tries, starting from the sentinel: a
      try replaces the best so far only when it scores strictly lower. */
  function Pick(ts: seq<(real, Polymer)>): (real, Polymer)
    decreases |ts|
  {
    if |ts| == 0 then (Sentinel, NullPolymer)
    else
      var best := Pick(ts[..|ts| - 1]);
      var t := ts[|ts| - 1];
      if t.0 < best.0 then t else best
  }

  /** The result of best_rebuild_sequence. */
  function BestRebuild(svc: Services, mp: Polymer, p: int): (real, Polymer)
    requires 2 <= p && p + 3 < |mp.residues|
  {
    if AtomsPresent(mp.residues, p) then
      Pick(Tries(svc, mp, p, Candidates(svc, mp.residues, p)))
    else
      (Sentinel, NullPolymer)
  }

  /** The rebuild loop: look up the atoms, run the closure search, and keep
      the running best. */
  method BestRebuildSequence(svc: Services, mp: Polymer, p: int) returns (best: (real, Polymer))
    requires 2 <= p && p + 3 < |mp.residues|
    ensures best == BestRebuild(svc, mp, p)
  {
    best := (Sentinel, NullPolymer);
    var rs := mp.residues;
    if AtomsPresent(rs, p) {
      var r8 := Candidates(svc, rs, p);
      ghost var tries := Tries(svc, mp, p, r8);
      var i := 0;
      while i < |r8|
        invariant 0 <= i <= |r8|
        invariant best == Pick(tries[..i])
      {
        var mp1 := Polymer(mp.id, Placed(rs, p, r8[i]));
        var z := ScoreChainSequence(svc, mp1);
        assert tries[..i + 1][..i] == tries[..i];
        if z < best.0 {
          best := (z, mp1);
        }
        i := i + 1;
      }
      assert tries[..i] == tries;
    }
  }

  /** The running best is the sentinel exactly when no try scores below it
      (i == -1); otherwise it is try i, which scores below the sentinel, no
      try scores lower, and every earlier try scores strictly higher, so ties
      go to the earliest candidate. */
  lemma {:induction false} PickIsEarliestMinimum(ts: seq<(real, Polymer)>) returns (i: int)
    ensures -1 <= i < |ts|
    ensures i == -1 ==>
      Pick(ts) == (Sentinel, NullPolymer) && forall j :: 0 <= j < |ts| ==> ts[j].0 >= Sentinel
    ensures i >= 0 ==>
      Pick(ts) == ts[i] && ts[i].0 < Sentinel &&
      (forall j :: 0 <= j < |ts| ==> ts[i].0 <= ts[j].0) &&
      (forall j :: 0 <= j < i ==> ts[i].0 < ts[j].0)
    decreases |ts|
  {
    if |ts| == 0 {
      i := -1;
    } else {
      var init := ts[..|ts| - 1];
      var i' := PickIsEarliestMinimum(init);
      assert forall j :: 0 <= j < |init| ==> init[j] == ts[j];
      if ts[|ts| - 1].0 < Pick(init).0 {
        i := |ts| - 1;
      } else {
        i := i';
      }
    }
  }

  /** With every atom present, the rebuild is the sentinel exactly when no
      candidate scores below it (i == -1); otherwise it is candidate i placed
      into the chain, which scores below the sentinel, no candidate scores
      lower, and every earlier candidate scores strictly higher. */
  lemma BestRebuildIsEarliestMinimum(svc: Services, mp: Polymer, p: int) returns (i: int)
    requires 2 <= p && p + 3 < |mp.residues| && AtomsPresent(mp.residues, p)
    ensures var cands := Candidates(svc, mp.residues, p);
      -1 <= i < |cands| &&
      (i == -1 ==>
        BestRebuild(svc, mp, p) == (Sentinel, NullPolymer) &&
        forall j :: 0 <= j < |cands| ==> CandidateScore(svc, mp.residues, p, cands[j]) >= Sentinel) &&
      (i >= 0 ==>
        var z := CandidateScore(svc, mp.residues, p, cands[i]);
        BestRebuild(svc, mp, p) == (z, Polymer(mp.id, Placed(mp.residues, p, cands[i]))) &&
        z < Sentinel &&
        (forall j :: 0 <= j < |cands| ==> z <= CandidateScore(svc, mp.residues, p, cands[j])) &&
        (forall j :: 0 <= j < i ==> z < CandidateScore(svc, mp.residues, p, cands[j])))
  {
    var cands := Candidates(svc, mp.residues, p);
    var tries := Tries(svc, mp, p, cands);
    i := PickIsEarliestMinimum(tries);
    assert forall j :: 0 <= j < |cands| ==> tries[j].0 == CandidateScore(svc, mp.residues, p, cands[j]);
  }

  /** With every atom present and at least one candidate scoring below the
      sentinel, the rebuilt chain has the input's length and residue types
      and differs from it only in the eight rebuilt atoms. */
  lemma RebuiltChainShape(svc: Services, mp: Polymer, p: int)
    requires 2 <= p && p + 3 < |mp.residues|
    requires BestRebuild(svc, mp, p).0 < Sentinel
    ensures var q := BestRebuild(svc, mp, p).1;
      q.id == mp.id && |q.residues| == |mp.residues| && Types(q.residues) == Types(mp.residues) &&
      forall k :: 0 <= k < |mp.residues| && (k < p - 1 || k > p + 2) ==> q.residues[k] == mp.residues[k]
  {
    var cands := Candidates(svc, mp.residues, p);
    var i := BestRebuildIsEarliestMinimum(svc, mp, p);
    PlacedChangesOnlyEightAtoms(mp.residues, p, cands[i]);
  }
}
