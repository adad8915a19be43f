/** Chains of residues as the corrector sees them, the external services it
    relies on, and the chain scorer (Ca_correct::score_chain_sequence). */
module ChainModel {
  import opened Common

  /** An orthogonal coordinate. */
  datatype Coord = Coord(x: real, y: real, z: real)

  /** A residue: its type code and its backbone N, CA and C atoms, each of
      which may be missing.  Other atoms are not modelled. */
  datatype Residue = Residue(typ: string, n: Option<Coord>, ca: Option<Coord>, c: Option<Coord>)

  /** A chain (MPolymer): an identifier and its residues in order. */
  datatype Polymer = Polymer(id: string, residues: seq<Residue>)

  /** One loop-closure candidate: new coordinates for the C of residue p-1,
      the N, CA, C of residues p and p+1, and the N of residue p+2. */
  datatype Closure = Closure(c1: Coord, n2: Coord, ca2: Coord, c2: Coord,
                             n3: Coord, ca3: Coord, c3: Coord, n4: Coord)

  /** The collaborators the corrector calls but whose code is not part of this
      model, passed in as functions:
      - residueIndex / residueCode3: the residue-type table (negative index =
        unrecognised);
      - targets: the number of likelihood targets (one per residue type);
      - llk: the density log-likelihood of a residue of type t whose frame is
        built from its N, CA and C (lower is better);
      - closeLoop: the 8-atom loop-closure search, given six anchor atoms;
      - chainSequence: the annotated sequence match of a chain;
      - chainTidy: the splitting of a model into separate chains. */
  datatype Services = Services(
    residueIndex: string -> int,
    residueCode3: int -> string,
    targets: nat,
    llk: (int, Coord, Coord, Coord) -> real,
    closeLoop: (Coord, Coord, Coord, Coord, Coord, Coord) -> seq<Closure>,
    chainSequence: Polymer -> string,
    chainTidy: seq<Polymer> -> seq<Polymer>)

  /** The residue types of a chain, in order. */
  function Types(rs: seq<Residue>): (ts: seq<string>)
    ensures |ts| == |rs| && forall k :: 0 <= k < |rs| ==> ts[k] == rs[k].typ
  {
    seq(|rs|, k requires 0 <= k < |rs| => rs[k].typ)
  }

  /** What one residue adds to the chain score: its likelihood when its type
      is recognised and has a target and its N, CA and C are all present;
      nothing otherwise. */
  function Contribution(svc: Services, r: Residue): (z: real)
    ensures z != 0.0 ==>
      0 <= svc.residueIndex(r.typ) < svc.targets && r.n.Some? && r.ca.Some? && r.c.Some?
  {
    var t := svc.residueIndex(r.typ);
    if 0 <= t < svc.targets && r.n.Some? && r.ca.Some? && r.c.Some? then
      svc.llk(t, r.n.value, r.ca.value, r.c.value)
    else
      0.0
  }

  /** The score of a chain: the sum of the contributions of its residues. */
  function ChainScore(svc: Services, rs: seq<Residue>): real
  {
    if |rs| == 0 then 0.0
    else ChainScore(svc, rs[..|rs| - 1]) + Contribution(svc, rs[|rs| - 1])
  }

  /** A chain none of whose residues contributes scores 0. */
  lemma {:induction false} UnscoredChainScoresZero(svc: Services, rs: seq<Residue>)
    requires forall k :: 0 <= k < |rs| ==> Contribution(svc, rs[k]) == 0.0
    ensures ChainScore(svc, rs) == 0.0
  {
    if |rs| > 0 {
      UnscoredChainScoresZero(svc, rs[..|rs| - 1]);
    }
  }

  /** The score of two stretches of chain laid end to end is the sum of
      their scores. */
  lemma {:induction false} ScoreAppend(svc: Services, a: seq<Residue>, b: seq<Residue>)
    ensures ChainScore(svc, a + b) == ChainScore(svc, a) + ChainScore(svc, b)
  {
    if |b| > 0 {
      assert (a + b)[..|a + b| - 1] == a + b[..|b| - 1];
      ScoreAppend(svc, a, b[..|b| - 1]);
    } else {
      assert a + b == a;
    }
  }

  /** Changing one residue changes the score by the difference of its
      contributions only. */
  lemma {:induction false} ScoreReplace(svc: Services, rs: seq<Residue>, k: nat, r: Residue)
    requires k < |rs|
    ensures ChainScore(svc, rs[k := r]) == ChainScore(svc, rs) - Contribution(svc, rs[k]) + Contribution(svc, r)
  {
    assert rs == rs[..k] + [rs[k]] + rs[k + 1..];
    assert rs[k := r] == rs[..k] + [r] + rs[k + 1..];
    ScoreAppend(svc, rs[..k] + [rs[k]], rs[k + 1..]);
    ScoreAppend(svc, rs[..k] + [r], rs[k + 1..]);
    ScoreAppend(svc, rs[..k], [rs[k]]);
    ScoreAppend(svc, rs[..k], [r]);
    assert ChainScore(svc, [rs[k]]) == Contribution(svc, rs[k]) by {
      assert [rs[k]][..0] == [];
    }
    assert ChainScore(svc, [r]) == Contribution(svc, r) by {
      assert [r][..0] == [];
    }
  }

  /** The scoring loop of score_chain_sequence. */
  method ScoreChainSequence(svc: Services, mp: Polymer) returns (z: real)
    ensures z == ChainScore(svc, mp.residues)
  {
    var rs := mp.residues;
    z := 0.0;
    var r := 0;
    while r < |rs|
      invariant 0 <= r <= |rs|
      invariant z == ChainScore(svc, rs[..r])
    {
      assert rs[..r + 1][..r] == rs[..r];
      var t := svc.residueIndex(rs[r].typ);
      if t >= 0 && t < svc.targets {
        if rs[r].ca.Some? && rs[r].c.Some? && rs[r].n.Some? {
          z := z + svc.llk(t, rs[r].n.value, rs[r].ca.value, rs[r].c.value);
        }
      }
      r := r + 1;
    }
    assert rs[..r] == rs;
  }
}
