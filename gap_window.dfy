/** The window of candidate edit positions around an insertion or deletion
    run in the annotated sequence, and the masking that keeps residues far
    from the window out of the score (Ca_correct::operator()). */
module GapWindow {
  import opened ChainModel

  /** How far from the run the window may reach. */
  const Offset: int := 8
  /** How many residues at either end of the chain are never moved. */
  const Buffer: int := 6

  function Max(a: int, b: int): int { if a < b then b else a }
  function Min(a: int, b: int): int { if a < b then a else b }

  /** The downward scan for the window's lower end: from r down to just above
      lo, stopping at the first unmatched ('?') position; r itself when it is
      not above lo. */
  function ScanBack(s: string, r: int, lo: nat): (k: int)
    requires r < |s|
    ensures k <= r && (r > lo ==> k >= lo) && (r <= lo ==> k == r)
    ensures k > lo ==> s[k] == '?'
    ensures forall j :: k < j <= r ==> s[j] != '?'
    decreases r
  {
    if r > lo then
      if s[r] == '?' then r else ScanBack(s, r - 1, lo)
    else r
  }

  /** The upward scan for the window's upper end: from r up to hi, stopping at
      the first unmatched position; one past hi when there is none. */
  function ScanFwd(s: string, r: nat, hi: int): (k: int)
    requires hi < |s|
    ensures k >= r && (r <= hi + 1 ==> k <= hi + 1) && (r > hi ==> k == r)
    ensures k <= hi ==> s[k] == '?'
    ensures forall j :: r <= j < k ==> s[j] != '?'
    decreases hi + 1 - r
  {
    if r <= hi then
      if s[r] == '?' then r else ScanFwd(s, r + 1, hi)
    else r
  }

  /** The window [r1, r2) of first moved positions for a run occupying
      [a, b) of the annotated sequence.  It keeps 6 residues clear of either
      end of the sequence, reaches at most 8 positions beyond the run (9 at
      the top, where the scan stops one past its limit), and contains no
      unmatched position between it and the run. */
  function Window(s: string, a: nat, b: nat): (w: (int, int))
    requires a < b < |s|
    ensures Buffer <= w.0 && w.1 <= |s| - Buffer
    ensures a - Offset <= w.0 <= Max(a - 1, Buffer)
    ensures Min(b, |s| - Buffer) <= w.1 <= b + Offset + 1
    ensures forall j :: w.0 < j < a ==> s[j] != '?'
    ensures forall j :: b <= j < w.1 ==> s[j] != '?'
  {
    var o1 := Max(a - Offset, 0);
    var o2 := Min(b + Offset, |s| - 1);
    (Max(ScanBack(s, a - 1, o1), Buffer), Min(ScanFwd(s, b, o2), |s| - Buffer))
  }

  /** The two scanning loops and the clamping of the window. */
  method FindWindow(s: string, a: nat, b: nat) returns (r1: int, r2: int)
    requires a < b < |s|
    ensures (r1, r2) == Window(s, a, b)
  {
    var o1 := Max(a - Offset, 0);
    var o2 := Min(b + Offset, |s| - 1);
    r1 := a - 1;
    while r1 > o1
      invariant -1 <= r1 < a
      invariant ScanBack(s, r1, o1) == ScanBack(s, a - 1, o1)
    {
      if s[r1] == '?' {
        break;
      }
      r1 := r1 - 1;
    }
    r2 := b;
    while r2 <= o2
      invariant b <= r2 <= o2 + 1
      invariant ScanFwd(s, r2, o2) == ScanFwd(s, b, o2)
    {
      if s[r2] == '?' {
        break;
      }
      r2 := r2 + 1;
    }
    r1 := Max(r1, Buffer);
    r2 := Min(r2, |s| - Buffer);
  }

  /** The chain with '*' appended to the type of every residue more than two
      positions outside [r1, r2]. */
  function Mask(rs: seq<Residue>, r1: int, r2: int): (m: seq<Residue>)
    ensures |m| == |rs|
  {
    seq(|rs|, k requires 0 <= k < |rs| =>
      if k < r1 - 2 || k > r2 + 2 then rs[k].(typ := rs[k].typ + "*") else rs[k])
  }

  /** The masking loop. */
  method MaskChain(rs: seq<Residue>, r1: int, r2: int) returns (m: seq<Residue>)
    ensures m == Mask(rs, r1, r2)
  {
    m := rs;
    var r := 0;
    while r < |m|
      invariant 0 <= r <= |m| && |m| == |rs|
      invariant forall k :: 0 <= k < r ==> m[k] == Mask(rs, r1, r2)[k]
      invariant forall k :: r <= k < |m| ==> m[k] == rs[k]
    {
      if r < r1 - 2 || r > r2 + 2 {
        m := m[r := m[r].(typ := m[r].typ + "*")];
      }
      r := r + 1;
    }
  }

  /** The first three characters of a type (substr(0, 3)). */
  function Prefix3(t: string): (p: string)
    ensures |p| == Min(|t|, 3) && p <= t
  {
    if |t| <= 3 then t else t[..3]
  }

  /** The chain with every type cut to its first three characters. */
  function Unmask(rs: seq<Residue>): (u: seq<Residue>)
    ensures |u| == |rs|
  {
    seq(|rs|, k requires 0 <= k < |rs| => rs[k].(typ := Prefix3(rs[k].typ)))
  }

  /** The unmasking loop. */
  method UnmaskChain(rs: seq<Residue>) returns (u: seq<Residue>)
    ensures u == Unmask(rs)
  {
    u := rs;
    var r := 0;
    while r < |u|
      invariant 0 <= r <= |u| && |u| == |rs|
      invariant forall k :: 0 <= k < r ==> u[k] == Unmask(rs)[k]
      invariant forall k :: r <= k < |u| ==> u[k] == rs[k]
    {
      u := u[r := u[r].(typ := Prefix3(u[r].typ))];
      r := r + 1;
    }
  }

  /** On a chain of three-letter types, unmasking undoes masking exactly. */
  lemma UnmaskUndoesMask(rs: seq<Residue>, r1: int, r2: int)
    requires forall k :: 0 <= k < |rs| ==> |rs[k].typ| == 3
    ensures Unmask(Mask(rs, r1, r2)) == rs
  {
    var u := Unmask(Mask(rs, r1, r2));
    forall k | 0 <= k < |rs| ensures u[k] == rs[k] {
      var t := rs[k].typ;
      assert (t + "*")[..3] == t;
    }
  }

  /** A marked type ('*' appended) is never recognised by the type table. */
  ghost predicate MarkedTypesUnrecognised(svc: Services) {
    forall t: string :: svc.residueIndex(t + "*") < 0
  }

  /** The first residue left unmasked in a chain of n residues. */
  function WindowLo(n: nat, r1: int): (lo: nat)
    ensures lo <= n
  {
    Min(Max(r1 - 2, 0), n)
  }

  /** One past the last residue left unmasked in a chain of n residues. */
  function WindowHi(n: nat, r1: int, r2: int): (hi: nat)
    ensures WindowLo(n, r1) <= hi <= n
  {
    Max(WindowLo(n, r1), Min(r2 + 3, n))
  }

  /** When marked types are unrecognised, the masked chain scores exactly
      what its unmasked stretch r1-2 .. r2+2 scores on its own. */
  lemma {:induction false} MaskedScore(svc: Services, rs: seq<Residue>, r1: int, r2: int)
    requires MarkedTypesUnrecognised(svc)
    ensures ChainScore(svc, Mask(rs, r1, r2)) ==
            ChainScore(svc, rs[WindowLo(|rs|, r1)..WindowHi(|rs|, r1, r2)])
  {
    var n := |rs|;
    if n > 0 {
      var m := Mask(rs, r1, r2);
      var front := rs[..n - 1];
      assert m[..n - 1] == Mask(front, r1, r2);
      MaskedScore(svc, front, r1, r2);
      var lo', hi' := WindowLo(n - 1, r1), WindowHi(n - 1, r1, r2);
      var lo, hi := WindowLo(n, r1), WindowHi(n, r1, r2);
      if n - 1 < r1 - 2 || n - 1 > r2 + 2 {
        assert svc.residueIndex(rs[n - 1].typ + "*") < 0;
        assert Contribution(svc, m[n - 1]) == 0.0;
        if lo < hi {
          assert front[lo'..hi'] == rs[lo..hi];
        } else {
          assert front[lo'..hi'] == [] && rs[lo..hi] == [];
        }
      } else {
        assert lo == lo' && hi == n && hi' == n - 1;
        assert rs[lo..hi][..hi - lo - 1] == front[lo'..hi'];
      }
    }
  }
}
