/** The gap corrector (Ca_correct::operator() and num_corrected).  For each
    chain it scans the annotated sequence for runs of insertion markers ('+')
    and then for runs of deletion markers ('-').  For each run it masks the
    residues far from the run, tries every first moved position in the
    window, rebuilds each trial chain, and accepts the best rebuild when it
    beats the unchanged chain's score plus 0.1; then it unmasks. */
module GapCorrect {
  import opened Common
  import opened ChainModel
  import opened Rebuild
  import opened TextSearch
  import opened GapWindow
  import opened GapTrial

  /** Bias in favour of rebuilding: the null score is raised by this much. */
  const Bias: real := 0.1

  /** The two kinds of run the corrector handles. */
  datatype Gap = Insertion | Deletion

  /** The annotated-sequence marker of each kind of run. */
  function Marker(g: Gap): char {
    match g
    case Insertion => '+'
    case Deletion => '-'
  }

  /** A run to correct: its kind, the positions [first, stop) it occupies in
      the annotated sequence, and (for a deletion run) the fill guess. */
  datatype Run = Run(gap: Gap, first: int, stop: int, fill: string)

  /** Where the scan for the next run resumes: just past an insertion run,
      and ndel further past a deletion run. */
  function Advance(g: Gap, a: int, b: int): (next: int)
    requires a < b
    ensures next > b
  {
    match g
    case Insertion => b + 1
    case Deletion => b + (b - a) + 1
  }

  /** The fill guess of a deletion run [del1, del2) of a chain of len
      residues: the left flank runs from FlankStart to del1 and the right
      flank from del2 to FlankEnd.  A run at the very start of the sequence
      makes the left flank start at -1, whose substr throws. */
  function DeletionFill(seq0: string, len: int, del1: nat, del2: nat, refs: seq<string>): (r: Result<string>)
    requires del1 < del2 < |seq0|
    ensures r.Ok? ==> 8 <= |r.value|
    ensures del1 == 0 ==> r.Fault?
  {
    var i1 := FlankStart(seq0, del1 - 1);
    var end := FlankEnd(seq0, len, del2);
    if end.Fault? then Fault
    else
      var s1 := Substr(seq0, i1, del1 - i1);
      var s2 := Substr(seq0, del2, end.value - del2);
      if s1.Fault? || s2.Fault? then Fault
      else
        Ok(Fill(refs, s1.value, s2.value))
  }

  /** The flank scans, the substrings and the reference search of a deletion
      run. */
  method ComputeDeletionFill(seq0: string, len: int, del1: nat, del2: nat, refs: seq<string>) returns (r: Result<string>)
    requires del1 < del2 < |seq0|
    ensures r == DeletionFill(seq0, len, del1, del2, refs)
  {
    var i1 := ScanFlankStart(seq0, del1 - 1);
    var i2 := ScanFlankEnd(seq0, len, del2);
    if i2.Fault? {
      return Fault;
    }
    var s1 := Substr(seq0, i1, del1 - i1);
    var s2 := Substr(seq0, del2, i2.value - del2);
    if s1.Fault? || s2.Fault? {
      return Fault;
    }
    var seqx := GuessFill(refs, s1.value, s2.value);
    r := Ok(seqx);
  }

  /** The run found at [a, b) for a chain of len residues. */
  function MakeRun(g: Gap, seq0: string, len: int, a: nat, b: nat, refs: seq<string>): (r: Result<Run>)
    requires a < b < |seq0|
    ensures r.Ok? ==> r.value.gap == g && r.value.first == a && r.value.stop == b
  {
    match g
    case Insertion => Ok(Run(Insertion, a, b, ""))
    case Deletion =>
      var fill := DeletionFill(seq0, len, a, b, refs);
      if fill.Fault? then Fault else Ok(Run(Deletion, a, b, fill.value))
  }

  /** The trial chain for first moved position rl, or Fault when building or
      rebuilding it would access out of range or throw.  A trial that exists
      leaves room for the rebuilder around rl. */
  function TrialChain(svc: Services, run: Run, w: seq<Residue>, rl: int): (r: Result<seq<Residue>>)
    ensures r.Ok? ==> 2 <= rl && rl + 3 < |r.value|
    ensures r.Ok? && run.gap == Insertion ==> |r.value| == |w| - (run.stop - run.first)
    ensures r.Ok? && run.gap == Deletion ==> |r.value| == |w| + (run.stop - run.first)
  {
    match run.gap
    case Insertion =>
      if InsertionOk(|w|, rl, run.first, run.stop) then Ok(InsertionTrial(w, rl, run.first, run.stop)) else Fault
    case Deletion =>
      if DeletionOk(|w|, rl, run.first, run.stop, |run.fill|) then
        Ok(DeletionTrial(svc, w, rl, run.first, run.stop, run.fill))
      else Fault
  }

  /** The rebuilt trial for first moved position rl of the masked chain m. */
  function Outcome(svc: Services, run: Run, m: Polymer, rl: int): Result<(real, Polymer)> {
    var t := TrialChain(svc, run, m.residues, rl);
    if t.Fault? then Fault else Ok(BestRebuild(svc, Polymer(m.id, t.value), rl))
  }

  /** The outcomes for first moved positions lo .. hi-1, in order. */
  function Outcomes(svc: Services, run: Run, m: Polymer, lo: int, hi: int): (outs: seq<Result<(real, Polymer)>>)
    requires lo <= hi
    ensures |outs| == hi - lo
  {
    seq(hi - lo, j requires 0 <= j < hi - lo => Outcome(svc, run, m, lo + j))
  }

  /** The outcomes up to hi+1 extend those up to hi by outcome hi. */
  lemma OutcomesSnoc(svc: Services, run: Run, m: Polymer, lo: int, hi: int)
    requires lo <= hi
    ensures Outcomes(svc, run, m, lo, hi + 1) == Outcomes(svc, run, m, lo, hi) + [Outcome(svc, run, m, hi)]
  {
  }

  /** A missing outcome at hi is missing from every longer list. */
  lemma OutcomesFault(svc: Services, run: Run, m: Polymer, znull: real, lo: int, hi: int, top: int)
    requires lo <= hi < top && Outcome(svc, run, m, hi).Fault?
    ensures Choose(Outcomes(svc, run, m, lo, top), m, znull).Fault?
  {
    var outs := Outcomes(svc, run, m, lo, top);
    assert outs[hi - lo] == Outcome(svc, run, m, hi);
    ChooseFaults(outs, m, znull, hi - lo);
  }

  /** The selection over a list of outcomes: starting from score 0 and the
      masked chain m, an outcome replaces the best so far when its score
      minus the null score is strictly lower.  Any missing outcome faults. */
  function Choose(outs: seq<Result<(real, Polymer)>>, m: Polymer, znull: real): Result<(real, Polymer)>
    decreases |outs|
  {
    if |outs| == 0 then Ok((0.0, m))
    else
      var best := Choose(outs[..|outs| - 1], m, znull);
      var res := outs[|outs| - 1];
      if best.Fault? || res.Fault? then Fault
      else if res.value.0 - znull < best.value.0 then Ok((res.value.0 - znull, res.value.1))
      else best
  }

  /** The selection faults unless every outcome exists.  When it does not
      fault, it stays (0, m) exactly when no outcome beats the null score
      (i == -1); otherwise it is outcome i, which beats the null score, no
      outcome does better, and every earlier outcome does strictly worse, so
      ties go to the lowest position. */
  lemma {:induction false} ChooseIsEarliestMinimum(outs: seq<Result<(real, Polymer)>>, m: Polymer, znull: real)
    returns (i: int)
    requires Choose(outs, m, znull).Ok?
    ensures forall j :: 0 <= j < |outs| ==> outs[j].Ok?
    ensures i == -1 || 0 <= i < |outs|
    ensures i == -1 ==>
      Choose(outs, m, znull) == Ok((0.0, m)) &&
      forall j :: 0 <= j < |outs| ==> outs[j].value.0 >= znull
    ensures i >= 0 ==>
      Choose(outs, m, znull) == Ok((outs[i].value.0 - znull, outs[i].value.1)) &&
      outs[i].value.0 < znull &&
      (forall j :: 0 <= j < |outs| ==> outs[i].value.0 <= outs[j].value.0) &&
      (forall j :: 0 <= j < i ==> outs[i].value.0 < outs[j].value.0)
    decreases |outs|
  {
    if |outs| == 0 {
      i := -1;
    } else {
      var init := outs[..|outs| - 1];
      var i' := ChooseIsEarliestMinimum(init, m, znull);
      assert forall j :: 0 <= j < |init| ==> init[j] == outs[j];
      var best := Choose(init, m, znull).value;
      var res := outs[|outs| - 1].value;
      if res.0 - znull < best.0 {
        i := |outs| - 1;
      } else {
        i := i';
      }
    }
  }

  /** One missing outcome makes the whole selection fault. */
  lemma {:induction false} ChooseFaults(outs: seq<Result<(real, Polymer)>>, m: Polymer, znull: real, j: int)
    requires 0 <= j < |outs| && outs[j].Fault?
    ensures Choose(outs, m, znull).Fault?
    decreases |outs|
  {
    if j < |outs| - 1 {
      ChooseFaults(outs[..|outs| - 1], m, znull, j);
    }
  }

  /** The window of a run. */
  function RunWindow(run: Run, seq0: string): (int, int)
    requires 0 <= run.first < run.stop < |seq0|
  {
    Window(seq0, run.first, run.stop)
  }

  /** The chain with everything outside the run's window masked. */
  function Masked(run: Run, w: Polymer, seq0: string): Polymer
    requires 0 <= run.first < run.stop < |seq0|
  {
    var win := RunWindow(run, seq0);
    Polymer(w.id, Mask(w.residues, win.0, win.1))
  }

  /** The score to beat: the masked chain's score plus the bias. */
  function NullScore(svc: Services, run: Run, w: Polymer, seq0: string): real
    requires 0 <= run.first < run.stop < |seq0|
  {
    ChainScore(svc, Masked(run, w, seq0).residues) + Bias
  }

  /** The correction of one run: the chain afterwards (unmasked) and whether
      the run was corrected. */
  function RunCorrection(svc: Services, run: Run, w: Polymer, seq0: string): Result<(Polymer, bool)>
    requires 0 <= run.first < run.stop < |seq0|
  {
    var win := RunWindow(run, seq0);
    var m := Masked(run, w, seq0);
    var sel := Choose(Outcomes(svc, run, m, win.0, Max(win.0, win.1)), m, NullScore(svc, run, w, seq0));
    if sel.Fault? then Fault
    else
      var kept := if sel.value.0 < 0.0 then sel.value.1 else m;
      Ok((Polymer(kept.id, Unmask(kept.residues)), sel.value.0 < 0.0))
  }

  /** One first moved position of the loop: build the trial chain and
      rebuild it. */
  method TryPosition(svc: Services, run: Run, m: Polymer, rl: int) returns (r: Result<(real, Polymer)>)
    ensures r == Outcome(svc, run, m, rl)
  {
    var trial: seq<Residue>;
    match run.gap {
      case Insertion =>
        if !InsertionOk(|m.residues|, rl, run.first, run.stop) {
          return Fault;
        }
        trial := BuildInsertionTrial(m.residues, rl, run.first, run.stop);
      case Deletion =>
        if !DeletionOk(|m.residues|, rl, run.first, run.stop, |run.fill|) {
          return Fault;
        }
        trial := BuildDeletionTrial(svc, m.residues, rl, run.first, run.stop, run.fill);
    }
    var result := BestRebuildSequence(svc, Polymer(m.id, trial), rl);
    r := Ok(result);
  }

  /** The loop over first moved positions r1 .. r2-1 of the masked chain m:
      the best rebuild so far and its score relative to the null score. */
  method SelectBest(svc: Services, run: Run, m: Polymer, znull: real, r1: int, r2: int) returns (r: Result<(real, Polymer)>)
    ensures r == Choose(Outcomes(svc, run, m, r1, Max(r1, r2)), m, znull)
  {
    var mpbest := m;
    var zbest := 0.0;
    var rl := r1;
    ghost var outs: seq<Result<(real, Polymer)>> := [];
    while rl < r2
      invariant r1 <= rl <= Max(r1, r2)
      invariant outs == Outcomes(svc, run, m, r1, rl)
      invariant Choose(outs, m, znull) == Ok((zbest, mpbest))
    {
      var out := TryPosition(svc, run, m, rl);
      OutcomesSnoc(svc, run, m, r1, rl);
      if out.Fault? {
        OutcomesFault(svc, run, m, znull, r1, rl, Max(r1, r2));
        return Fault;
      }
      var result := out.value;
      assert (outs + [out])[..|outs|] == outs;
      outs := outs + [out];
      var z := result.0 - znull;
      if z < zbest {
        zbest := z;
        mpbest := result.1;
      }
      rl := rl + 1;
    }
    r := Ok((zbest, mpbest));
  }

  /** One run's correction as the loop body of the source: window, mask,
      null score, the loop over first moved positions, acceptance, unmask. */
  method CorrectRun(svc: Services, run: Run, w: Polymer, seq0: string) returns (r: Result<(Polymer, bool)>)
    requires 0 <= run.first < run.stop < |seq0|
    ensures r == RunCorrection(svc, run, w, seq0)
  {
    var r1, r2 := FindWindow(seq0, run.first, run.stop);
    var masked := MaskChain(w.residues, r1, r2);
    var mpwrk := Polymer(w.id, masked);
    var znull := ScoreChainSequence(svc, mpwrk);
    znull := znull + Bias;
    var best := SelectBest(svc, run, mpwrk, znull, r1, r2);
    if best.Fault? {
      return Fault;
    }
    if best.value.0 < 0.0 {
      mpwrk := best.value.1;
    }
    var unmasked := UnmaskChain(mpwrk.residues);
    r := Ok((Polymer(mpwrk.id, unmasked), best.value.0 < 0.0));
  }

  /** A run is corrected exactly when some first moved position in its
      window rebuilds to a score below the null score. */
  lemma RunCorrectedIffBeaten(svc: Services, run: Run, w: Polymer, seq0: string)
    requires 0 <= run.first < run.stop < |seq0|
    requires RunCorrection(svc, run, w, seq0).Ok?
    ensures var win := RunWindow(run, seq0);
      var m := Masked(run, w, seq0);
      RunCorrection(svc, run, w, seq0).value.1 <==>
        exists rl :: win.0 <= rl < win.1 && Outcome(svc, run, m, rl).Ok? &&
                     Outcome(svc, run, m, rl).value.0 < NullScore(svc, run, w, seq0)
  {
    var win := RunWindow(run, seq0);
    var m := Masked(run, w, seq0);
    var znull := NullScore(svc, run, w, seq0);
    var outs := Outcomes(svc, run, m, win.0, Max(win.0, win.1));
    var i := ChooseIsEarliestMinimum(outs, m, znull);
    var sel := Choose(outs, m, znull);
    assert RunCorrection(svc, run, w, seq0).value.1 == (sel.value.0 < 0.0);
    if i >= 0 {
      assert outs[i] == Outcome(svc, run, m, win.0 + i);
    } else {
      forall rl | win.0 <= rl < win.1
        ensures Outcome(svc, run, m, rl).Ok? && Outcome(svc, run, m, rl).value.0 >= znull
      {
        assert outs[rl - win.0] == Outcome(svc, run, m, rl);
      }
    }
  }

  /** On an annotated sequence of at most 12 positions the window, kept 6
      positions clear of either end, is empty: no position is tried, nothing
      can fault, and the run is never corrected. */
  lemma ShortSequenceNeverCorrected(svc: Services, run: Run, w: Polymer, seq0: string)
    requires 0 <= run.first < run.stop < |seq0| <= 2 * Buffer
    ensures RunCorrection(svc, run, w, seq0).Ok? && !RunCorrection(svc, run, w, seq0).value.1
  {
    var win := RunWindow(run, seq0);
    var m := Masked(run, w, seq0);
    assert Outcomes(svc, run, m, win.0, Max(win.0, win.1)) == [];
  }

  /** An uncorrected run leaves a chain of three-letter residue types
      exactly as it was: masking is undone by unmasking. */
  lemma UncorrectedRunUnchanged(svc: Services, run: Run, w: Polymer, seq0: string)
    requires 0 <= run.first < run.stop < |seq0|
    requires RunCorrection(svc, run, w, seq0).Ok? && !RunCorrection(svc, run, w, seq0).value.1
    requires forall k :: 0 <= k < |w.residues| ==> |w.residues[k].typ| == 3
    ensures RunCorrection(svc, run, w, seq0).value.0 == w
  {
    var win := RunWindow(run, seq0);
    var m := Masked(run, w, seq0);
    var sel := Choose(Outcomes(svc, run, m, win.0, Max(win.0, win.1)), m, NullScore(svc, run, w, seq0));
    assert RunCorrection(svc, run, w, seq0).value.0 == Polymer(m.id, Unmask(m.residues));
    UnmaskUndoesMask(w.residues, win.0, win.1);
  }

  /** A corrected run, when the null score is not above the rebuilder's
      sentinel, keeps the chain's identifier and removes nins residues (an
      insertion run) or adds ndel residues (a deletion run). */
  lemma CorrectedRunShape(svc: Services, run: Run, w: Polymer, seq0: string)
    requires 0 <= run.first < run.stop < |seq0|
    requires RunCorrection(svc, run, w, seq0).Ok? && RunCorrection(svc, run, w, seq0).value.1
    requires NullScore(svc, run, w, seq0) <= Sentinel
    ensures var q := RunCorrection(svc, run, w, seq0).value.0;
      q.id == w.id &&
      |q.residues| == if run.gap == Insertion then |w.residues| - (run.stop - run.first)
                      else |w.residues| + (run.stop - run.first)
  {
    var win := RunWindow(run, seq0);
    var m := Masked(run, w, seq0);
    var znull := NullScore(svc, run, w, seq0);
    var outs := Outcomes(svc, run, m, win.0, Max(win.0, win.1));
    var i := ChooseIsEarliestMinimum(outs, m, znull);
    var sel := Choose(outs, m, znull);
    assert RunCorrection(svc, run, w, seq0).value == (Polymer(sel.value.1.id, Unmask(sel.value.1.residues)), sel.value.0 < 0.0);
    assert i >= 0;
    var rl := win.0 + i;
    assert outs[i] == Outcome(svc, run, m, rl);
    var t := TrialChain(svc, run, m.residues, rl).value;
    RebuiltChainShape(svc, Polymer(m.id, t), rl);
  }

  /** Adds n corrections to a result. */
  function Shift(r: Result<(Polymer, nat)>, n: nat): Result<(Polymer, nat)> {
    if r.Fault? then Fault else Ok((r.value.0, r.value.1 + n))
  }

  /** The correction of the run found at [a, b): Fault when preparing the
      run or correcting it faults. */
  function PassStep(svc: Services, g: Gap, seq0: string, refs: seq<string>, w: Polymer, a: nat, b: nat): Result<(Polymer, bool)>
    requires a < b < |seq0|
  {
    var run := MakeRun(g, seq0, |w.residues|, a, b, refs);
    if run.Fault? then Fault else RunCorrection(svc, run.value, w, seq0)
  }

  /** The pass over the runs of one kind, resuming the scan at `cursor`: the
      chain afterwards and the number of corrected runs.  The annotated
      sequence seq0 is the one computed when the chain was first taken up;
      the pass never recomputes it. */
  function PassFrom(svc: Services, g: Gap, seq0: string, refs: seq<string>, w: Polymer, cursor: nat): Result<(Polymer, nat)>
    decreases |seq0| + 1 - cursor, 2
  {
    var a := IndexOf(seq0, Marker(g), cursor);
    if a == -1 then Ok((w, 0)) else RunFrom(svc, g, seq0, refs, w, a)
  }

  /** The rest of a pass from a run starting at a.  A run that reaches the
      end of the sequence ends the pass. */
  function RunFrom(svc: Services, g: Gap, seq0: string, refs: seq<string>, w: Polymer, a: nat): Result<(Polymer, nat)>
    requires a < |seq0| && seq0[a] == Marker(g)
    decreases |seq0| + 1 - a, 1
  {
    var b := IndexNotOf(seq0, Marker(g), a);
    if b == -1 then Ok((w, 0)) else CorrectAt(svc, g, seq0, refs, w, a, b)
  }

  /** The rest of a pass from the run found at [a, b): the run is corrected
      and the scan resumes past it. */
  function CorrectAt(svc: Services, g: Gap, seq0: string, refs: seq<string>, w: Polymer, a: nat, b: nat): Result<(Polymer, nat)>
    requires a < b < |seq0|
    decreases |seq0| + 1 - a, 0
  {
    var out := PassStep(svc, g, seq0, refs, w, a, b);
    if out.Fault? then Fault
    else Shift(PassFrom(svc, g, seq0, refs, out.value.0, Advance(g, a, b)), if out.value.1 then 1 else 0)
  }

  /** The scan from the cursor finds the run [a, b). */
  lemma PassFromFinds(svc: Services, g: Gap, seq0: string, refs: seq<string>, w: Polymer, cursor: nat, a: int, b: int)
    requires a == IndexOf(seq0, Marker(g), cursor) && a != -1
    requires b == IndexNotOf(seq0, Marker(g), a) && b != -1
    ensures 0 <= a < b < |seq0|
    ensures PassFrom(svc, g, seq0, refs, w, cursor) == CorrectAt(svc, g, seq0, refs, w, a, b)
  {
    assert PassFrom(svc, g, seq0, refs, w, cursor) == RunFrom(svc, g, seq0, refs, w, a);
  }

  /** Correcting the run at [a, b) and continuing the pass past it. */
  lemma CorrectAtStep(svc: Services, g: Gap, seq0: string, refs: seq<string>, w: Polymer, a: nat, b: nat)
    requires a < b < |seq0|
    ensures var out := PassStep(svc, g, seq0, refs, w, a, b);
      CorrectAt(svc, g, seq0, refs, w, a, b) ==
        if out.Fault? then Fault
        else Shift(PassFrom(svc, g, seq0, refs, out.value.0, Advance(g, a, b)), if out.value.1 then 1 else 0)
  {
  }

  /** The run at [a, b) as the source prepares it: for a deletion run, the
      flank scans and the reference search. */
  method PrepareRun(g: Gap, seq0: string, len: int, a: nat, b: nat, refs: seq<string>) returns (r: Result<Run>)
    requires a < b < |seq0|
    ensures r == MakeRun(g, seq0, len, a, b, refs)
  {
    match g {
      case Insertion =>
        r := Ok(Run(Insertion, a, b, ""));
      case Deletion =>
        var fill := ComputeDeletionFill(seq0, len, a, b, refs);
        r := if fill.Fault? then Fault else Ok(Run(Deletion, a, b, fill.value));
    }
  }

  /** Prepares and corrects the run at [a, b). */
  method CorrectNext(svc: Services, g: Gap, seq0: string, refs: seq<string>, w: Polymer, a: nat, b: nat) returns (r: Result<(Polymer, bool)>)
    requires a < b < |seq0|
    ensures r == PassStep(svc, g, seq0, refs, w, a, b)
  {
    var run := PrepareRun(g, seq0, |w.residues|, a, b, refs);
    if run.Fault? {
      return Fault;
    }
    r := CorrectRun(svc, run.value, w, seq0);
  }

  /** One iteration of the pass loop at the cursor: Fault, the end of the
      pass, or the chain after the run found there, whether it was
      corrected, and where the scan resumes. */
  method PassIteration(svc: Services, g: Gap, seq0: string, refs: seq<string>, w: Polymer, cursor: nat)
    returns (r: Result<(Polymer, bool)>, stop: bool, next: nat)
    requires IndexOf(seq0, Marker(g), cursor) != -1
    ensures next > cursor
    ensures stop ==> r.Ok? && PassFrom(svc, g, seq0, refs, w, cursor) == Ok((w, 0))
    ensures !stop && r.Fault? ==> PassFrom(svc, g, seq0, refs, w, cursor).Fault?
    ensures !stop && r.Ok? ==>
      PassFrom(svc, g, seq0, refs, w, cursor) ==
        Shift(PassFrom(svc, g, seq0, refs, r.value.0, next), if r.value.1 then 1 else 0)
  {
    var a := IndexOf(seq0, Marker(g), cursor);
    var b := IndexNotOf(seq0, Marker(g), a);
    if b == -1 {
      return Ok((w, false)), true, cursor + 1;
    }
    PassFromFinds(svc, g, seq0, refs, w, cursor, a, b);
    CorrectAtStep(svc, g, seq0, refs, w, a, b);
    r := CorrectNext(svc, g, seq0, refs, w, a, b);
    stop := false;
    next := Advance(g, a, b);
  }

  /** Counts compose: adding i and then j corrections adds i + j. */
  lemma ShiftShift(x: Result<(Polymer, nat)>, i: nat, j: nat)
    ensures Shift(Shift(x, i), j) == Shift(x, i + j)
  {
  }

  /** The pass loop: find the next run from the cursor, correct it, count it
      when corrected, and move the cursor strictly past it. */
  method RunPass(svc: Services, g: Gap, seq0: string, refs: seq<string>, w: Polymer) returns (r: Result<(Polymer, nat)>)
    ensures r == PassFrom(svc, g, seq0, refs, w, 0)
  {
    var mpwrk := w;
    var count: nat := 0;
    var lastPos: nat := 0;
    while IndexOf(seq0, Marker(g), lastPos) != -1
      invariant PassFrom(svc, g, seq0, refs, w, 0) == Shift(PassFrom(svc, g, seq0, refs, mpwrk, lastPos), count)
      decreases |seq0| + 1 - lastPos
    {
      var out, stop, next := PassIteration(svc, g, seq0, refs, mpwrk, lastPos);
      if stop {
        break;
      }
      if out.Fault? {
        return Fault;
      }
      var inc: nat := if out.value.1 then 1 else 0;
      ShiftShift(PassFrom(svc, g, seq0, refs, out.value.0, next), inc, count);
      mpwrk := out.value.0;
      count := count + inc;
      lastPos := next;
    }
    r := Ok((mpwrk, count));
  }
}

module GapDriver {
  import opened Common
  import opened ChainModel
  import opened TextSearch
  import opened GapWindow
  import opened GapCorrect

  /** Marker positions of s from `from` on. */
  function Markers(s: string, c: char, from: nat): nat
    decreases |s| - from
  {
    if from >= |s| then 0 else (if s[from] == c then 1 else 0) + Markers(s, c, from + 1)
  }

  lemma {:induction false} MarkersAntitone(s: string, c: char, lo: nat, hi: nat)
    requires lo <= hi
    ensures Markers(s, c, hi) <= Markers(s, c, lo)
    decreases hi - lo
  {
    if lo < hi {
      MarkersAntitone(s, c, lo + 1, hi);
    }
  }

  /** A pass corrects at most one run per marker position it scans, so the
      count it reports never exceeds the number of markers from the cursor
      on. */
  lemma {:induction false} PassCountBounded(svc: Services, g: Gap, seq0: string, refs: seq<string>, w: Polymer, cursor: nat)
    requires PassFrom(svc, g, seq0, refs, w, cursor).Ok?
    ensures PassFrom(svc, g, seq0, refs, w, cursor).value.1 <= Markers(seq0, Marker(g), cursor)
    decreases |seq0| + 1 - cursor
  {
    var a := IndexOf(seq0, Marker(g), cursor);
    if a != -1 {
      var b := IndexNotOf(seq0, Marker(g), a);
      if b != -1 {
        PassFromFinds(svc, g, seq0, refs, w, cursor, a, b);
        CorrectAtStep(svc, g, seq0, refs, w, a, b);
        var out := PassStep(svc, g, seq0, refs, w, a, b).value;
        var next := Advance(g, a, b);
        PassCountBounded(svc, g, seq0, refs, out.0, next);
        MarkersAntitone(seq0, Marker(g), a + 1, next);
        MarkersAntitone(seq0, Marker(g), cursor, a);
      }
    }
  }

  /** A pass that corrects nothing leaves a chain of three-letter residue
      types exactly as it was. */
  lemma {:induction false} UncorrectedPassUnchanged(svc: Services, g: Gap, seq0: string, refs: seq<string>, w: Polymer, cursor: nat)
    requires PassFrom(svc, g, seq0, refs, w, cursor).Ok? && PassFrom(svc, g, seq0, refs, w, cursor).value.1 == 0
    requires forall k :: 0 <= k < |w.residues| ==> |w.residues[k].typ| == 3
    ensures PassFrom(svc, g, seq0, refs, w, cursor).value.0 == w
    decreases |seq0| + 1 - cursor
  {
    var a := IndexOf(seq0, Marker(g), cursor);
    if a != -1 {
      var b := IndexNotOf(seq0, Marker(g), a);
      if b != -1 {
        PassFromFinds(svc, g, seq0, refs, w, cursor, a, b);
        CorrectAtStep(svc, g, seq0, refs, w, a, b);
        var run := MakeRun(g, seq0, |w.residues|, a, b, refs).value;
        UncorrectedRunUnchanged(svc, run, w, seq0);
        UncorrectedPassUnchanged(svc, g, seq0, refs, w, Advance(g, a, b));
      }
    }
  }

  /** One chain: the insertion pass and then the deletion pass, both driven
      by the annotated sequence taken once from the chain as it came in. */
  function CorrectChain(svc: Services, refs: seq<string>, p: Polymer): Result<(Polymer, nat)> {
    var seq0 := svc.chainSequence(p);
    var ins := PassFrom(svc, Insertion, seq0, refs, p, 0);
    if ins.Fault? then Fault
    else
      var del := PassFrom(svc, Deletion, seq0, refs, ins.value.0, 0);
      if del.Fault? then Fault else Ok((del.value.0, ins.value.1 + del.value.1))
  }

  /** The two passes over one chain. */
  method CorrectChainPasses(svc: Services, refs: seq<string>, mpwrk: Polymer) returns (r: Result<(Polymer, nat)>)
    ensures r == CorrectChain(svc, refs, mpwrk)
  {
    var seq0 := svc.chainSequence(mpwrk);
    var ins := RunPass(svc, Insertion, seq0, refs, mpwrk);
    if ins.Fault? {
      return Fault;
    }
    var del := RunPass(svc, Deletion, seq0, refs, ins.value.0);
    if del.Fault? {
      return Fault;
    }
    r := Ok((del.value.0, ins.value.1 + del.value.1));
  }

  /** A chain's count of corrections is at most its number of insertion and
      deletion markers. */
  lemma ChainCountBounded(svc: Services, refs: seq<string>, p: Polymer)
    requires CorrectChain(svc, refs, p).Ok?
    ensures var seq0 := svc.chainSequence(p);
      CorrectChain(svc, refs, p).value.1 <= Markers(seq0, '+', 0) + Markers(seq0, '-', 0)
  {
    var seq0 := svc.chainSequence(p);
    var ins := PassFrom(svc, Insertion, seq0, refs, p, 0).value;
    PassCountBounded(svc, Insertion, seq0, refs, p, 0);
    PassCountBounded(svc, Deletion, seq0, refs, ins.0, 0);
  }

  /** A chain of three-letter residue types on which no run is corrected
      comes back unchanged. */
  lemma UncorrectedChainUnchanged(svc: Services, refs: seq<string>, p: Polymer)
    requires CorrectChain(svc, refs, p).Ok? && CorrectChain(svc, refs, p).value.1 == 0
    requires forall k :: 0 <= k < |p.residues| ==> |p.residues[k].typ| == 3
    ensures CorrectChain(svc, refs, p).value.0 == p
  {
    var seq0 := svc.chainSequence(p);
    UncorrectedPassUnchanged(svc, Insertion, seq0, refs, p, 0);
    var ins := PassFrom(svc, Insertion, seq0, refs, p, 0).value;
    UncorrectedPassUnchanged(svc, Deletion, seq0, refs, ins.0, 0);
  }

  /** All chains in order, with the total count of corrections. */
  function CorrectAll(svc: Services, refs: seq<string>, chains: seq<Polymer>): Result<(seq<Polymer>, nat)>
    decreases |chains|
  {
    if |chains| == 0 then Ok(([], 0))
    else
      var done := CorrectAll(svc, refs, chains[..|chains| - 1]);
      var last := CorrectChain(svc, refs, chains[|chains| - 1]);
      if done.Fault? || last.Fault? then Fault
      else Ok((done.value.0 + [last.value.0], done.value.1 + last.value.1))
  }

  /** Sum of the chains' correction counts. */
  function TotalCount(svc: Services, refs: seq<string>, chains: seq<Polymer>): nat
    decreases |chains|
  {
    if |chains| == 0 then 0
    else
      var last := CorrectChain(svc, refs, chains[|chains| - 1]);
      TotalCount(svc, refs, chains[..|chains| - 1]) + if last.Ok? then last.value.1 else 0
  }

  /** Chains are corrected independently: the whole succeeds exactly when
      every chain does, and then the k-th result is the k-th chain corrected
      on its own and the count is the sum of the chains' counts. */
  lemma {:induction false} CorrectAllChainwise(svc: Services, refs: seq<string>, chains: seq<Polymer>)
    ensures CorrectAll(svc, refs, chains).Ok? <==> forall k :: 0 <= k < |chains| ==> CorrectChain(svc, refs, chains[k]).Ok?
    ensures CorrectAll(svc, refs, chains).Ok? ==>
      var r := CorrectAll(svc, refs, chains).value;
      |r.0| == |chains| && r.1 == TotalCount(svc, refs, chains) &&
      forall k :: 0 <= k < |chains| ==> r.0[k] == CorrectChain(svc, refs, chains[k]).value.0
    decreases |chains|
  {
    if |chains| > 0 {
      var init := chains[..|chains| - 1];
      CorrectAllChainwise(svc, refs, init);
      assert forall k :: 0 <= k < |init| ==> init[k] == chains[k];
    }
  }

  /** The corrector object: the count of corrected runs of the last call. */
  class CaCorrect {
    var numCor: nat

    constructor ()
      ensures numCor == 0
    {
      numCor := 0;
    }

    /** Splits mol1 into chains and corrects each one in place, counting the
        corrected runs. */
    method Apply(svc: Services, mol1: seq<Polymer>, refs: seq<string>) returns (mol2: Result<seq<Polymer>>)
      modifies this
      ensures var all := CorrectAll(svc, refs, svc.chainTidy(mol1));
        (all.Fault? <==> mol2.Fault?) &&
        (all.Ok? ==> mol2.value == all.value.0 && numCor == all.value.1)
    {
      var chains := svc.chainTidy(mol1);
      var work := chains;
      numCor := 0;
      var chn := 0;
      while chn < |work|
        invariant 0 <= chn <= |work| == |chains|
        invariant CorrectAll(svc, refs, chains[..chn]) == Ok((work[..chn], numCor))
        invariant work[chn..] == chains[chn..]
      {
        assert work[chn] == chains[chn];
        assert chains[..chn + 1][..chn] == chains[..chn];
        var res := CorrectChainPasses(svc, refs, work[chn]);
        if res.Fault? {
          CorrectAllPrefixFault(svc, refs, chains, chn + 1);
          return Fault;
        }
        numCor := numCor + res.value.1;
        work := work[chn := res.value.0];
        assert work[..chn + 1] == work[..chn] + [res.value.0];
        chn := chn + 1;
      }
      assert chains[..chn] == chains;
      mol2 := Ok(work);
    }

    /** The number of runs the last call corrected. */
    function NumCorrected(): (n: nat)
      reads this
      ensures n == numCor
    {
      numCor
    }
  }

  /** A fault on a prefix of the chains is a fault on all of them. */
  lemma {:induction false} CorrectAllPrefixFault(svc: Services, refs: seq<string>, chains: seq<Polymer>, n: nat)
    requires n <= |chains| && CorrectAll(svc, refs, chains[..n]).Fault?
    ensures CorrectAll(svc, refs, chains).Fault?
    decreases |chains| - n
  {
    if n < |chains| {
      assert chains[..n + 1][..n] == chains[..n];
      CorrectAllPrefixFault(svc, refs, chains, n + 1);
    } else {
      assert chains[..n] == chains;
    }
  }
}
