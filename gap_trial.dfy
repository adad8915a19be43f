/** The trial chains the corrector rebuilds for one run: for an insertion
    run the marked residues are spliced out, for a deletion run residues are
    duplicated in and typed from a guess at the missing sequence, which is
    looked up in the reference sequences between the matched stretches on
    either side of the run (Ca_correct::operator()). */
module GapTrial {
  import opened Common
  import opened ChainModel
  import opened TextSearch

  /** Two residues carry the same backbone atoms. */
  predicate SameAtoms(a: Residue, b: Residue) {
    a.n == b.n && a.ca == b.ca && a.c == b.c
  }

  // ---------------------------------------------------------------------
  // Insertion runs

  /** The insertion trial at first moved position rl for the run [ins1, ins2)
      of a chain of len residues is free of out-of-range accesses, including
      those of the rebuilder it feeds. */
  predicate InsertionOk(len: nat, rl: int, ins1: int, ins2: int) {
    0 <= ins1 < ins2 <= len && 2 <= rl && rl + (ins2 - ins1) + 3 < len
  }

  /** The atoms of residue k of the insertion trial: those of residue k
      before rl and of residue k + nins from rl on. */
  function InsertionBase(w: seq<Residue>, rl: int, ins1: int, ins2: int, k: nat): Residue
    requires InsertionOk(|w|, rl, ins1, ins2) && k < |w| - (ins2 - ins1)
  {
    if k < rl then w[k] else w[k + (ins2 - ins1)]
  }

  /** The type of residue k of the insertion trial: that of residue k before
      ins1 and of residue k + nins from ins1 on. */
  function InsertionType(w: seq<Residue>, ins1: int, ins2: int, k: nat): string
    requires 0 <= ins1 <= ins2 <= |w| && k < |w| - (ins2 - ins1)
  {
    if k < ins1 then w[k].typ else w[k + (ins2 - ins1)].typ
  }

  /** The insertion trial: residues before rl are kept, the next ins2-ins1
      residues are dropped, and the rest shift down. */
  function InsertionTrial(w: seq<Residue>, rl: int, ins1: int, ins2: int): (t: seq<Residue>)
    requires InsertionOk(|w|, rl, ins1, ins2)
    ensures |t| == |w| - (ins2 - ins1)
  {
    seq(|w| - (ins2 - ins1), k requires 0 <= k < |w| - (ins2 - ins1) =>
      InsertionBase(w, rl, ins1, ins2, k).(typ := InsertionType(w, ins1, ins2, k)))
  }

  /** The insertion trial has nins fewer residues than the chain; its types
      are the original types with the run [ins1, ins2) removed, whatever rl
      is; its atoms are those of the chain with the nins residues from rl
      on dropped. */
  lemma InsertionTrialShape(w: seq<Residue>, rl: int, ins1: int, ins2: int)
    requires InsertionOk(|w|, rl, ins1, ins2)
    ensures var t := InsertionTrial(w, rl, ins1, ins2);
      Types(t) == Types(w)[..ins1] + Types(w)[ins2..] &&
      (forall k :: 0 <= k < rl ==> SameAtoms(t[k], w[k])) &&
      (forall k :: rl <= k < |t| ==> SameAtoms(t[k], w[k + (ins2 - ins1)]))
  {
    var t := InsertionTrial(w, rl, ins1, ins2);
    var ts := Types(w)[..ins1] + Types(w)[ins2..];
    assert |Types(t)| == |ts|;
    forall k | 0 <= k < |t| ensures Types(t)[k] == ts[k] {
      if k >= ins1 {
        assert ts[k] == Types(w)[ins2..][k - ins1];
      }
    }
  }

  /** The copy loop of an insertion trial: residues before rl, then those
      from rl + nins on. */
  method CopySkipping(w: seq<Residue>, rl: nat, nins: nat) returns (t: seq<Residue>)
    requires rl + nins <= |w|
    ensures t == w[..rl] + w[rl + nins..]
  {
    t := w[..rl];
    var r := rl + nins;
    while r < |w|
      invariant rl + nins <= r <= |w|
      invariant t == w[..rl] + w[rl + nins..r]
    {
      t := t + [w[r]];
      r := r + 1;
    }
    assert w[rl + nins..r] == w[rl + nins..];
  }

  /** The loops that build an insertion trial: copy residues around the
      dropped stretch, then set the types. */
  method BuildInsertionTrial(w: seq<Residue>, rl: int, ins1: int, ins2: int) returns (t: seq<Residue>)
    requires InsertionOk(|w|, rl, ins1, ins2)
    ensures t == InsertionTrial(w, rl, ins1, ins2)
  {
    var nins := ins2 - ins1;
    var len := |w|;
    t := CopySkipping(w, rl, nins);
    assert forall k :: 0 <= k < |t| ==> t[k] == InsertionBase(w, rl, ins1, ins2, k);
    var r := 0;
    while r < ins1
      invariant 0 <= r <= ins1 && |t| == len - nins
      invariant forall k :: 0 <= k < |t| ==>
        t[k] == if k < r then InsertionTrial(w, rl, ins1, ins2)[k] else InsertionBase(w, rl, ins1, ins2, k)
    {
      t := t[r := t[r].(typ := w[r].typ)];
      r := r + 1;
    }
    r := ins2;
    while r < len
      invariant ins2 <= r <= len && |t| == len - nins
      invariant forall k :: 0 <= k < |t| ==>
        t[k] == if k < r - nins then InsertionTrial(w, rl, ins1, ins2)[k] else InsertionBase(w, rl, ins1, ins2, k)
    {
      t := t[r - nins := t[r - nins].(typ := w[r].typ)];
      r := r + 1;
    }
  }

  // ---------------------------------------------------------------------
  // Deletion runs

  /** The type given to position i of the guessed fill: the three-letter code
      of its one-character substring when the type table recognises it, UNK
      otherwise. */
  function FillType(svc: Services, seqx: string, i: int): string
    requires 0 <= i <= |seqx|
  {
    var t := svc.residueIndex(seqx[i..if i < |seqx| then i + 1 else i]);
    if t >= 0 then svc.residueCode3(t) else "UNK"
  }

  /** The first n fill types. */
  function FillTypes(svc: Services, seqx: string, n: nat): (ts: seq<string>)
    requires n <= |seqx| + 1
    ensures |ts| == n && forall i :: 0 <= i < n ==> ts[i] == FillType(svc, seqx, i)
  {
    seq(n, i requires 0 <= i < n => FillType(svc, seqx, i))
  }

  /** The deletion trial at first moved position rl for the run [del1, del2)
      of a chain of len residues is free of out-of-range accesses and of
      substr throws, including those of the rebuilder it feeds. */
  predicate DeletionOk(len: nat, rl: int, del1: int, del2: int, fillLength: nat) {
    0 <= del1 < del2 <= len && del2 - del1 <= rl <= len &&
    2 * (del2 - del1) <= fillLength + 1 &&
    2 <= rl && rl + 3 < len + (del2 - del1)
  }

  /** The atoms of residue k of the deletion trial. */
  function DeletionBase(w: seq<Residue>, rl: int, del1: int, del2: int, k: nat): Residue
    requires del1 <= del2 && del2 - del1 <= rl <= |w| && k < |w| + (del2 - del1)
  {
    if k < rl then w[k] else w[k - (del2 - del1)]
  }

  /** The type of residue k of the deletion trial. */
  function DeletionType(svc: Services, w: seq<Residue>, del1: int, del2: int, seqx: string, k: nat): string
    requires 0 <= del1 < del2 <= |w| && 2 * (del2 - del1) <= |seqx| + 1 && k < |w| + (del2 - del1)
  {
    if k < del1 then w[k].typ
    else if k < del2 + (del2 - del1) then FillType(svc, seqx, k - del1)
    else w[k - (del2 - del1)].typ
  }

  /** The deletion trial: residues before rl are kept, the ndel residues
      before rl are repeated, and the rest follow. */
  function DeletionTrial(svc: Services, w: seq<Residue>, rl: int, del1: int, del2: int, seqx: string): (t: seq<Residue>)
    requires DeletionOk(|w|, rl, del1, del2, |seqx|)
    ensures |t| == |w| + (del2 - del1)
  {
    seq(|w| + (del2 - del1), k requires 0 <= k < |w| + (del2 - del1) =>
      DeletionBase(w, rl, del1, del2, k).(typ := DeletionType(svc, w, del1, del2, seqx, k)))
  }

  /** The deletion trial has ndel more residues than the chain; its types are
      the original types up to del1, then 2*ndel fill types, then the
      original types from del2 on; and its atoms are those of the chain with
      the ndel residues before rl repeated. */
  lemma DeletionTrialShape(svc: Services, w: seq<Residue>, rl: int, del1: int, del2: int, seqx: string)
    requires DeletionOk(|w|, rl, del1, del2, |seqx|)
    ensures var t := DeletionTrial(svc, w, rl, del1, del2, seqx);
      Types(t) == Types(w)[..del1] + FillTypes(svc, seqx, 2 * (del2 - del1)) + Types(w)[del2..] &&
      (forall k :: 0 <= k < rl ==> SameAtoms(t[k], w[k])) &&
      (forall k :: rl <= k < |t| ==> SameAtoms(t[k], w[k - (del2 - del1)]))
  {
    var t := DeletionTrial(svc, w, rl, del1, del2, seqx);
    var ts := Types(w)[..del1] + FillTypes(svc, seqx, 2 * (del2 - del1)) + Types(w)[del2..];
    assert |Types(t)| == |ts|;
    forall k | 0 <= k < |t| ensures Types(t)[k] == ts[k] {
      if k < del1 {
      } else if k < del2 + (del2 - del1) {
        assert ts[k] == FillTypes(svc, seqx, 2 * (del2 - del1))[k - del1];
      } else {
        assert ts[k] == Types(w)[del2..][k - 2 * (del2 - del1) - del1];
      }
    }
  }

  /** The copy loop of a deletion trial: residues before rl, then those from
      rl - ndel on, so that the ndel residues before rl appear twice. */
  method CopyRepeating(w: seq<Residue>, rl: nat, ndel: nat) returns (t: seq<Residue>)
    requires ndel <= rl <= |w|
    ensures t == w[..rl] + w[rl - ndel..]
  {
    t := w[..rl];
    var r := rl - ndel;
    while r < |w|
      invariant rl - ndel <= r <= |w|
      invariant t == w[..rl] + w[rl - ndel..r]
    {
      t := t + [w[r]];
      r := r + 1;
    }
    assert w[rl - ndel..r] == w[rl - ndel..];
  }

  /** The middle typing loop of a deletion trial: positions del1 up to
      del2 + ndel take their types from the fill. */
  method TypeFill(svc: Services, w: seq<Residue>, rl: int, del1: int, del2: int, seqx: string, t0: seq<Residue>)
    returns (t: seq<Residue>)
    requires DeletionOk(|w|, rl, del1, del2, |seqx|) && |t0| == |w| + (del2 - del1)
    requires forall k :: 0 <= k < |t0| ==>
      t0[k] == if k < del1 then DeletionTrial(svc, w, rl, del1, del2, seqx)[k] else DeletionBase(w, rl, del1, del2, k)
    ensures |t| == |t0|
    ensures forall k :: 0 <= k < |t| ==>
      t[k] == if k < del2 + (del2 - del1) then DeletionTrial(svc, w, rl, del1, del2, seqx)[k]
              else DeletionBase(w, rl, del1, del2, k)
  {
    var ndel := del2 - del1;
    t := t0;
    var r := del1;
    while r < del2 + ndel
      invariant del1 <= r <= del2 + ndel && |t| == |t0|
      invariant forall k :: 0 <= k < |t| ==>
        t[k] == if k < r then DeletionTrial(svc, w, rl, del1, del2, seqx)[k] else DeletionBase(w, rl, del1, del2, k)
    {
      var tx := svc.residueIndex(seqx[r - del1..if r - del1 < |seqx| then r - del1 + 1 else r - del1]);
      if tx >= 0 {
        t := t[r := t[r].(typ := svc.residueCode3(tx))];
      } else {
        t := t[r := t[r].(typ := "UNK")];
      }
      r := r + 1;
    }
  }

  /** The loops that build a deletion trial: copy residues, repeating ndel of
      them, then set the types. */
  method BuildDeletionTrial(svc: Services, w: seq<Residue>, rl: int, del1: int, del2: int, seqx: string)
    returns (t: seq<Residue>)
    requires DeletionOk(|w|, rl, del1, del2, |seqx|)
    ensures t == DeletionTrial(svc, w, rl, del1, del2, seqx)
  {
    var ndel := del2 - del1;
    var len := |w|;
    t := CopyRepeating(w, rl, ndel);
    assert forall k :: 0 <= k < |t| ==> t[k] == DeletionBase(w, rl, del1, del2, k);
    var r := 0;
    while r < del1
      invariant 0 <= r <= del1 && |t| == len + ndel
      invariant forall k :: 0 <= k < |t| ==>
        t[k] == if k < r then DeletionTrial(svc, w, rl, del1, del2, seqx)[k] else DeletionBase(w, rl, del1, del2, k)
    {
      t := t[r := t[r].(typ := w[r].typ)];
      r := r + 1;
    }
    t := TypeFill(svc, w, rl, del1, del2, seqx, t);
    r := del2;
    while r < len
      invariant del2 <= r <= len && |t| == len + ndel
      invariant forall k :: 0 <= k < |t| ==>
        t[k] == if k < r + ndel then DeletionTrial(svc, w, rl, del1, del2, seqx)[k] else DeletionBase(w, rl, del1, del2, k)
    {
      t := t[r + ndel := t[r + ndel].(typ := w[r].typ)];
      r := r + 1;
    }
  }

  // ---------------------------------------------------------------------
  // The matched stretches either side of a deletion run

  /** The downward scan for the start of the left flank: from i, step down
      while the position before is matched, stopping above an unmatched one
      or at 0. */
  function FlankStart(s: string, i: int): (k: int)
    requires i <= |s|
    ensures k <= i && (i >= 0 ==> k >= 0) && (i <= 0 ==> k == i)
    ensures k > 0 ==> s[k - 1] == '?'
    ensures forall j :: 0 <= j && k <= j < i ==> s[j] != '?'
    decreases if i > 0 then i else 0
  {
    if i > 0 then
      if s[i - 1] == '?' then i else FlankStart(s, i - 1)
    else i
  }

  /** The i1 loop. */
  method ScanFlankStart(s: string, i: int) returns (i1: int)
    requires i <= |s|
    ensures i1 == FlankStart(s, i)
  {
    i1 := i;
    while i1 > 0
      invariant i1 <= i
      invariant FlankStart(s, i1) == FlankStart(s, i)
    {
      if s[i1 - 1] == '?' {
        break;
      }
      i1 := i1 - 1;
    }
  }

  /** The upward scan for the end of the right flank: from i, step up while
      the next position is matched, below len-1.  It reads the annotated
      sequence up to len-1, which may lie past its end when the chain has
      grown since the sequence was computed: position |s| reads the NUL
      terminator and anything beyond is out of range. */
  function FlankEnd(s: string, len: int, i: nat): (r: Result<int>)
    ensures r.Ok? ==> i <= r.value && (i < len ==> r.value < len)
    ensures r.Ok? ==> forall j :: i < j <= r.value ==> CharAt(s, j).Ok? && CharAt(s, j).value != '?'
    ensures r.Ok? && r.value < len - 1 ==> r.value + 1 < |s| && s[r.value + 1] == '?'
    ensures r.Fault? ==> |s| + 1 < len
    decreases len - i
  {
    if i < len - 1 then
      var ch := CharAt(s, i + 1);
      if ch.Fault? then Fault
      else if ch.value == '?' then Ok(i)
      else FlankEnd(s, len, i + 1)
    else Ok(i)
  }

  /** The i2 loop. */
  method ScanFlankEnd(s: string, len: int, i: nat) returns (r: Result<int>)
    ensures r == FlankEnd(s, len, i)
  {
    var i2 := i;
    while i2 < len - 1
      invariant i <= i2
      invariant FlankEnd(s, len, i2) == FlankEnd(s, len, i)
      decreases len - i2
    {
      var ch := CharAt(s, i2 + 1);
      if ch.Fault? {
        return Fault;
      }
      if ch.value == '?' {
        break;
      }
      i2 := i2 + 1;
    }
    r := Ok(i2);
  }

  // ---------------------------------------------------------------------
  // Guessing the missing sequence

  /** The unknown-residue padding appended to every fill guess. */
  const Padding: string := "????????"

  /** A reference sequence matches the flanks: both occur, the right flank
      starts after the left one ends, and at most 4 residues lie between. */
  predicate Matches(ref: string, s1: string, s2: string) {
    var f1 := Find(ref, s1, 0);
    var f2 := Find(ref, s2, 0);
    f1 != -1 && f2 != -1 && f2 > f1 + |s1| && f2 <= f1 + |s1| + 4
  }

  /** What a matching reference says is missing: the 1 to 4 residues between
      the first occurrences of the two flanks. */
  function Between(ref: string, s1: string, s2: string): (g: string)
    requires Matches(ref, s1, s2)
    ensures 1 <= |g| <= 4
  {
    ref[Find(ref, s1, 0) + |s1|..Find(ref, s2, 0)]
  }

  /** The missing residues according to the first matching reference from c
      on, or nothing. */
  function GuessFrom(refs: seq<string>, s1: string, s2: string, c: nat): string
    decreases |refs| - c
  {
    if c >= |refs| then ""
    else if Matches(refs[c], s1, s2) then Between(refs[c], s1, s2)
    else GuessFrom(refs, s1, s2, c + 1)
  }

  /** The fill guess: the first matching reference's missing residues,
      followed by the padding. */
  function Fill(refs: seq<string>, s1: string, s2: string): string {
    GuessFrom(refs, s1, s2, 0) + Padding
  }

  /** The search loop over the reference sequences. */
  method GuessFill(refs: seq<string>, s1: string, s2: string) returns (seqx: string)
    ensures seqx == Fill(refs, s1, s2)
  {
    seqx := "";
    var c := 0;
    while c < |refs|
      invariant 0 <= c <= |refs|
      invariant GuessFrom(refs, s1, s2, c) == GuessFrom(refs, s1, s2, 0)
    {
      var f1 := Find(refs[c], s1, 0);
      var f2 := Find(refs[c], s2, 0);
      var e1 := f1 + |s1|;
      if f1 != -1 && f2 != -1 {
        if f2 > e1 && f2 <= f1 + |s1| + 4 {
          seqx := refs[c][e1..f2];
          break;
        }
      }
      c := c + 1;
    }
    seqx := seqx + Padding;
  }

  /** The guess comes from the first reference that matches (c), or is bare
      padding when none does (c == -1); either way it ends in the padding and
      has between 8 and 12 characters. */
  lemma {:induction false} FillIsFirstMatch(refs: seq<string>, s1: string, s2: string, from: nat)
    returns (c: int)
    requires from <= |refs|
    ensures c == -1 || from <= c < |refs|
    ensures c == -1 ==>
      GuessFrom(refs, s1, s2, from) == "" && forall d :: from <= d < |refs| ==> !Matches(refs[d], s1, s2)
    ensures c >= 0 ==>
      Matches(refs[c], s1, s2) && GuessFrom(refs, s1, s2, from) == Between(refs[c], s1, s2) &&
      forall d :: from <= d < c ==> !Matches(refs[d], s1, s2)
    ensures 8 <= |GuessFrom(refs, s1, s2, from) + Padding| <= 12
    decreases |refs| - from
  {
    if from == |refs| {
      c := -1;
    } else if Matches(refs[from], s1, s2) {
      c := from;
    } else {
      c := FillIsFirstMatch(refs, s1, s2, from + 1);
    }
  }
}
