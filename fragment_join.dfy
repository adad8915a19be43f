/** The integer logic of Ca_join::join (buccaneer-join.cpp): weighting of
    tri-residue fragments by their distance to the nearest unsequenced (UNK)
    residue, the rule that decides which fragment may follow which, repeated
    extraction of longest chains with pruning of the join graph, and the
    numbering of the residues of each output chain.  Coordinates, symmetry and
    distance tests are not modelled; whether two fragments are close enough to
    join is an oracle `close(f1, f2)`. */
module FragmentJoin {
  import opened FragmentGraph

  /** Flag and weight of a fragment: flag 0 = merged away or used,
      1 = ordinary, 2 = core of a sequenced region. */
  datatype Weight = Weight(flag: int, score: real)

  /** A residue of an output chain: its type, its sequence number, and the
      (fragment, slot) pairs whose coordinates are averaged to place it. */
  datatype OutResidue = OutResidue(typ: string, seqnum: int, sources: seq<(int, int)>)

  // ---------------------------------------------------------------------
  // Fragment weighting (join, the sequenced-region upweighting)

  /** The nearest UNK residue strictly before position k, or -1 if none. */
  function PrevUnknown(types: seq<string>, k: nat): (r: int)
    requires k <= |types|
    ensures -1 <= r < k
    ensures r >= 0 ==> types[r] == "UNK"
    ensures forall j :: r < j < k ==> types[j] != "UNK"
  {
    if k == 0 then -1
    else if types[k - 1] == "UNK" then k - 1
    else PrevUnknown(types, k - 1)
  }

  /** The nearest UNK residue at or after position k, or |types| if none. */
  function NextUnknown(types: seq<string>, k: nat): (r: nat)
    requires k <= |types|
    ensures k <= r <= |types|
    ensures r < |types| ==> types[r] == "UNK"
    ensures forall j :: k <= j < r ==> types[j] != "UNK"
    decreases |types| - k
  {
    if k == |types| then |types|
    else if types[k] == "UNK" then k
    else NextUnknown(types, k + 1)
  }

  /** The distance from residue res to the nearest UNK residue on either side,
      counting one step past either chain end as UNK. */
  function UnknownDistance(types: seq<string>, res: nat): (d: nat)
    requires res < |types|
    ensures 1 <= d <= res + 1 && d <= |types| - res
    ensures forall j :: 0 <= j < |types| && j != res && res - d < j < res + d ==> types[j] != "UNK"
    ensures res - d == -1 || types[res - d] == "UNK" || res + d == |types| || types[res + d] == "UNK"
  {
    var r1 := PrevUnknown(types, res);
    var r2 := NextUnknown(types, res + 1);
    if res - r1 <= r2 - res then res - r1 else r2 - res
  }

  /** The two scans of the weighting rule: the nearest UNK before res and the
      nearest UNK after it (or -1 and the chain length). */
  method NearestUnknown(types: seq<string>, res: nat) returns (r1: int, r2: int)
    requires res < |types|
    ensures r1 == PrevUnknown(types, res) && r2 == NextUnknown(types, res + 1)
  {
    r1 := res - 1;
    while r1 >= 0
      invariant -1 <= r1 < res
      invariant PrevUnknown(types, res) == PrevUnknown(types, r1 + 1)
    {
      if types[r1] == "UNK" {
        break;
      }
      r1 := r1 - 1;
    }
    r2 := res + 1;
    while r2 < |types|
      invariant res + 1 <= r2 <= |types|
      invariant NextUnknown(types, res + 1) == NextUnknown(types, r2)
    {
      if types[r2] == "UNK" {
        break;
      }
      r2 := r2 + 1;
    }
  }

  /** The flag and score of the fragment centred on residue res of a chain
      with residue types `types`: a fragment centred on an UNK residue has flag
      1 and score 1; otherwise its score is 1 + 0.1 d for the distance d to
      the nearest UNK, and it is flagged core (2) exactly when d > 15. */
  method Weigh(types: seq<string>, res: nat) returns (w: Weight)
    requires res < |types|
    ensures types[res] == "UNK" ==> w == Weight(1, 1.0)
    ensures types[res] != "UNK" ==>
      w.score == 1.0 + 0.1 * (UnknownDistance(types, res) as real) &&
      (w.flag == 2 <==> UnknownDistance(types, res) > 15) &&
      (w.flag == 1 <==> UnknownDistance(types, res) <= 15)
  {
    w := Weight(1, 1.0);
    if types[res] != "UNK" {
      var r1, r2 := NearestUnknown(types, res);
      var d := if res - r1 <= r2 - res then res - r1 else r2 - res;
      w := w.(score := w.score + 0.1 * (d as real));
      if d > 15 {
        w := w.(flag := 2);
      }
    }
  }

  // ---------------------------------------------------------------------
  // The list of joins

  /** Fragment f2 may follow f1: both are live, they differ, they are close
      enough, and unless both are ordinary (flag 1) f2 is the next fragment. */
  predicate Joinable(flags: seq<int>, close: (int, int) -> bool, f1: int, f2: int)
    requires 0 <= f1 < |flags| && 0 <= f2 < |flags|
  {
    flags[f1] != 0 && flags[f2] != 0 && f1 != f2 && close(f1, f2) &&
    ((flags[f1] == 1 && flags[f2] == 1) || f2 == f1 + 1)
  }

  /** The fragments below k that may follow f1, in increasing order. */
  function Successors(flags: seq<int>, close: (int, int) -> bool, f1: int, k: nat): (s: seq<int>)
    requires 0 <= f1 < |flags| && k <= |flags|
    ensures forall f2 :: f2 in s <==> 0 <= f2 < k && Joinable(flags, close, f1, f2)
    ensures forall i :: 0 <= i < |s| ==> 0 <= s[i] < k
    ensures forall i, j :: 0 <= i < j < |s| ==> s[i] < s[j]
  {
    if k == 0 then []
    else Successors(flags, close, f1, k - 1) + (if Joinable(flags, close, f1, k - 1) then [k - 1] else [])
  }

  /** Fragments of the graph, each joinable to the one before it. */
  predicate JoinPath(flags: seq<int>, close: (int, int) -> bool, c: seq<int>) {
    (forall i :: 0 <= i < |c| ==> 0 <= c[i] < |flags|) &&
    (forall i :: 0 < i < |c| ==> Joinable(flags, close, c[i - 1], c[i]))
  }

  /** The join lists of all fragments: each fragment's successors in
      increasing order.  No fragment joins itself. */
  function JoinGraph(flags: seq<int>, close: (int, int) -> bool): (joins: seq<seq<int>>)
    ensures |joins| == |flags| && WellFormed(joins) && NoSelfJoins(joins)
  {
    seq(|flags|, f1 requires 0 <= f1 < |flags| => Successors(flags, close, f1, |flags|))
  }

  /** A used fragment has no successors. */
  lemma {:induction false} NoSuccessors(flags: seq<int>, close: (int, int) -> bool, f1: int, k: nat)
    requires 0 <= f1 < |flags| && k <= |flags| && flags[f1] == 0
    ensures Successors(flags, close, f1, k) == []
  {
    if k > 0 {
      NoSuccessors(flags, close, f1, k - 1);
    }
  }

  /** Builds the join list of every fragment.  No fragment joins itself, no
      join touches a flag-0 fragment, and a join from or to a fragment whose
      flag is not 1 only links a fragment to the next one. */
  method BuildJoins(flags: seq<int>, close: (int, int) -> bool) returns (joins: seq<seq<int>>)
    ensures joins == JoinGraph(flags, close)
    ensures |joins| == |flags| && WellFormed(joins)
    ensures forall f1 :: 0 <= f1 < |flags| ==> joins[f1] == Successors(flags, close, f1, |flags|)
    ensures forall f1, f2 :: 0 <= f1 < |flags| && f2 in joins[f1] ==>
      f1 != f2 && flags[f1] != 0 && flags[f2] != 0 && close(f1, f2) &&
      ((flags[f1] != 1 || flags[f2] != 1) ==> f2 == f1 + 1)
  {
    joins := [];
    var f1 := 0;
    while f1 < |flags|
      invariant 0 <= f1 <= |flags| && |joins| == f1
      invariant forall f :: 0 <= f < f1 ==> joins[f] == Successors(flags, close, f, |flags|)
    {
      var list: seq<int> := [];
      if flags[f1] != 0 {
        var f2 := 0;
        while f2 < |flags|
          invariant 0 <= f2 <= |flags|
          invariant list == Successors(flags, close, f1, f2)
        {
          if flags[f2] != 0 {
            if f1 != f2 {
              if close(f1, f2) {
                if flags[f1] == 1 && flags[f2] == 1 {
                  list := list + [f2];
                } else if f2 == f1 + 1 {
                  list := list + [f2];
                }
              }
            }
          }
          f2 := f2 + 1;
        }
      } else {
        NoSuccessors(flags, close, f1, |flags|);
      }
      joins := joins + [list];
      f1 := f1 + 1;
    }
    ghost var graph := JoinGraph(flags, close);
    assert forall f :: 0 <= f < |flags| ==> joins[f] == graph[f];
  }

  // ---------------------------------------------------------------------
  // Extraction of successive longest chains

  /** A join list with the links to used (flag-0) fragments removed, order kept. */
  function Live(list: seq<int>, flags: seq<int>): (r: seq<int>)
    requires forall k :: 0 <= k < |list| ==> 0 <= list[k] < |flags|
    ensures |r| <= |list|
  {
    if |list| == 0 then []
    else (if flags[list[0]] != 0 then [list[0]] else []) + Live(list[1..], flags)
  }

  /** The filtered list holds exactly the links to live fragments. */
  lemma {:induction false} LiveMembers(list: seq<int>, flags: seq<int>)
    requires forall k :: 0 <= k < |list| ==> 0 <= list[k] < |flags|
    ensures forall x :: x in Live(list, flags) <==> x in list && flags[x] != 0
    ensures forall i :: 0 <= i < |Live(list, flags)| ==> 0 <= Live(list, flags)[i] < |flags|
  {
    if |list| > 0 {
      LiveMembers(list[1..], flags);
      assert list == [list[0]] + list[1..];
    }
  }

  /** The fragments that still have a join. */
  function Joined(joins: seq<seq<int>>): set<int> {
    set f | 0 <= f < |joins| && joins[f] != []
  }

  /** Fragment v is used up: flag 0, no join out of it and none into it. */
  ghost predicate Used(flags: seq<int>, joins: seq<seq<int>>, v: int) {
    0 <= v < |flags| && 0 <= v < |joins| && flags[v] == 0 && joins[v] == [] &&
    forall f :: 0 <= f < |joins| ==> v !in joins[f]
  }

  /** Every fragment of every extracted chain is used up. */
  ghost predicate AllUsed(flags: seq<int>, joins: seq<seq<int>>, chns: seq<seq<int>>) {
    forall c, v :: c in chns && v in c ==> Used(flags, joins, v)
  }

  /** No fragment belongs to two extracted chains. */
  predicate Disjoint(chns: seq<seq<int>>) {
    forall a, b, v :: 0 <= a < b < |chns| && v in chns[b] ==> v !in chns[a]
  }

  /** Every join of `small` is a join of `big`. */
  ghost predicate SubGraph(small: seq<seq<int>>, big: seq<seq<int>>) {
    |small| == |big| && forall f, x :: 0 <= f < |big| && x in small[f] ==> x in big[f]
  }

  /** The flags and join lists after retiring one extracted chain: its
      fragments get flag 0, the join lists of flag-0 fragments are emptied,
      and the links to flag-0 fragments are erased from the others. */
  ghost function Retired(flags: seq<int>, joins: seq<seq<int>>, chn: seq<int>): (r: (seq<int>, seq<seq<int>>))
    requires |flags| == |joins| && WellFormed(joins)
    ensures |r.0| == |flags| && |r.1| == |joins| && WellFormed(r.1)
  {
    var flags' := seq(|flags|, f requires 0 <= f < |flags| => if f in chn then 0 else flags[f]);
    var joins' := seq(|joins|, f requires 0 <= f < |joins| => if flags'[f] == 0 then [] else Live(joins[f], flags'));
    PrunedWellFormed(flags', joins, joins');
    (flags', joins')
  }

  /** The flags and join lists after retiring the chains of `chns` in order. */
  ghost function Pruned(flags: seq<int>, joins: seq<seq<int>>, chns: seq<seq<int>>): (r: (seq<int>, seq<seq<int>>))
    requires |flags| == |joins| && WellFormed(joins)
    ensures |r.0| == |flags| && |r.1| == |joins| && WellFormed(r.1)
    decreases |chns|
  {
    if |chns| == 0 then (flags, joins)
    else
      var p := Pruned(flags, joins, chns[..|chns| - 1]);
      Retired(p.0, p.1, chns[|chns| - 1])
  }

  /** Fragment f belongs to one of the chains. */
  ghost predicate InChains(chns: seq<seq<int>>, f: int) {
    exists k :: 0 <= k < |chns| && f in chns[k]
  }

  /** After pruning, exactly the fragments of the retired chains have flag 0
      in place of their own flag. */
  lemma {:induction false} PrunedFlags(flags: seq<int>, joins: seq<seq<int>>, chns: seq<seq<int>>, f: int)
    requires |flags| == |joins| && WellFormed(joins) && 0 <= f < |flags|
    ensures Pruned(flags, joins, chns).0[f] == if InChains(chns, f) then 0 else flags[f]
    decreases |chns|
  {
    if |chns| > 0 {
      var front := chns[..|chns| - 1];
      PrunedFlags(flags, joins, front, f);
      if InChains(chns, f) {
        var k :| 0 <= k < |chns| && f in chns[k];
        if k < |chns| - 1 {
          assert f in front[k];
        }
      }
      if InChains(front, f) {
        var k :| 0 <= k < |front| && f in front[k];
        assert f in chns[k];
      }
    }
  }

  /** Pruning only removes joins, so it creates no self-join. */
  lemma {:induction false} PrunedSubGraph(flags: seq<int>, joins: seq<seq<int>>, chns: seq<seq<int>>)
    requires |flags| == |joins| && WellFormed(joins)
    ensures SubGraph(Pruned(flags, joins, chns).1, joins)
    ensures NoSelfJoins(joins) ==> NoSelfJoins(Pruned(flags, joins, chns).1)
    decreases |chns|
  {
    if |chns| > 0 {
      var front := chns[..|chns| - 1];
      PrunedSubGraph(flags, joins, front);
      var p := Pruned(flags, joins, front);
      var r := Retired(p.0, p.1, chns[|chns| - 1]);
      forall f | 0 <= f < |joins| && r.0[f] != 0 {
        LiveMembers(p.1[f], r.0);
      }
    }
  }

  /** A join graph without self-joins, pruned by any chains, has exactly one
      longest chain in the sense of longest_chain: the chains extracted from
      the join graph are determined by it. */
  lemma PrunedChainUnique(flags: seq<int>, joins: seq<seq<int>>, chns: seq<seq<int>>, fuel: nat, c1: seq<int>, c2: seq<int>)
    requires |flags| == |joins| && WellFormed(joins) && NoSelfJoins(joins)
    requires LongestChainOf(Pruned(flags, joins, chns).1, fuel, c1)
    requires LongestChainOf(Pruned(flags, joins, chns).1, fuel, c2)
    ensures c1 == c2
  {
    PrunedSubGraph(flags, joins, chns);
    LongestChainOfUnique(Pruned(flags, joins, chns).1, fuel, c1, c2);
  }

  /** Marks every fragment of an extracted chain as used. */
  method FlagUsed(flags: seq<int>, chn: seq<int>) returns (flags': seq<int>)
    requires forall k :: 0 <= k < |chn| ==> 0 <= chn[k] < |flags|
    ensures |flags'| == |flags|
    ensures forall f :: 0 <= f < |flags| ==> flags'[f] == if f in chn then 0 else flags[f]
  {
    flags' := flags;
    var r := 0;
    while r < |chn|
      invariant 0 <= r <= |chn| && |flags'| == |flags|
      invariant forall f :: 0 <= f < |flags| ==> flags'[f] == if f in chn[..r] then 0 else flags[f]
    {
      flags' := flags'[chn[r] := 0];
      assert chn[..r + 1] == chn[..r] + [chn[r]];
      r := r + 1;
    }
    assert chn[..r] == chn;
  }

  /** Live on a suffix peels off its first element. */
  lemma LiveSuffix(list: seq<int>, flags: seq<int>, j: nat)
    requires j < |list| && forall k :: 0 <= k < |list| ==> 0 <= list[k] < |flags|
    ensures Live(list[j..], flags) == (if flags[list[j]] != 0 then [list[j]] else []) + Live(list[j + 1..], flags)
  {
    assert list[j..][1..] == list[j + 1..];
  }

  /** Erasing the element that sits between a prefix and a suffix leaves
      the prefix followed by the suffix. */
  lemma EraseMiddle(s: seq<int>, j: nat, q: seq<int>)
    requires j < |s|
    ensures s[..j + 1] + q == s[..j] + [s[j]] + q
    ensures (s[..j + 1] + q)[j] == s[j]
    ensures (s[..j + 1] + q)[..j] + (s[..j + 1] + q)[j + 1..] == s[..j] + q
  {
    assert s[..j + 1] == s[..j] + [s[j]];
    var cur := s[..j + 1] + q;
    assert cur[..j] == s[..j] && cur[j + 1..] == q;
  }

  /** Removes the links of one join list to used fragments, scanning it from
      the back and erasing in place. */
  method DropUsedLinks(list: seq<int>, flags: seq<int>) returns (list': seq<int>)
    requires forall k :: 0 <= k < |list| ==> 0 <= list[k] < |flags|
    ensures list' == Live(list, flags)
  {
    list' := list;
    var j := |list| - 1;
    ghost var rest: seq<int> := [];
    while j >= 0
      invariant -1 <= j < |list|
      invariant rest == Live(list[j + 1..], flags)
      invariant list' == list[..j + 1] + rest
    {
      LiveSuffix(list, flags, j);
      EraseMiddle(list, j, rest);
      if flags[list'[j]] == 0 {
        list' := list'[..j] + list'[j + 1..];
      }
      rest := Live(list[j..], flags);
      assert list' == list[..j] + rest;
      j := j - 1;
    }
    assert list[0..] == list;
  }

  /** Clears the join lists of used fragments. */
  method ClearUsed(flags: seq<int>, joins: seq<seq<int>>) returns (joins': seq<seq<int>>)
    requires |flags| == |joins|
    ensures |joins'| == |joins|
    ensures forall f :: 0 <= f < |joins| ==> joins'[f] == if flags[f] == 0 then [] else joins[f]
  {
    joins' := joins;
    var f := 0;
    while f < |joins'|
      invariant 0 <= f <= |joins'| && |joins'| == |joins|
      invariant forall g :: 0 <= g < f ==> joins'[g] == if flags[g] == 0 then [] else joins[g]
      invariant forall g :: f <= g < |joins| ==> joins'[g] == joins[g]
    {
      if flags[f] == 0 {
        joins' := joins'[f := []];
      }
      f := f + 1;
    }
  }

  /** Erases the links to used fragments from every join list. */
  method DropLinksToUsed(flags: seq<int>, joins: seq<seq<int>>) returns (joins': seq<seq<int>>)
    requires |flags| == |joins| && WellFormed(joins)
    ensures |joins'| == |joins|
    ensures forall f :: 0 <= f < |joins| ==> joins'[f] == Live(joins[f], flags)
  {
    joins' := joins;
    var f := 0;
    while f < |joins'|
      invariant 0 <= f <= |joins'| && |joins'| == |joins|
      invariant forall g :: 0 <= g < f ==> joins'[g] == Live(joins[g], flags)
      invariant forall g :: f <= g < |joins| ==> joins'[g] == joins[g]
    {
      var kept := DropUsedLinks(joins'[f], flags);
      joins' := joins'[f := kept];
      f := f + 1;
    }
  }

  /** Retires an extracted chain: its fragments get flag 0, the join lists of
      flag-0 fragments are cleared, and links to them are erased everywhere. */
  method Retire(flags: seq<int>, joins: seq<seq<int>>, chn: seq<int>) returns (flags': seq<int>, joins': seq<seq<int>>)
    requires |flags| == |joins| && WellFormed(joins)
    requires forall k :: 0 <= k < |chn| ==> 0 <= chn[k] < |flags|
    ensures |flags'| == |flags| && |joins'| == |joins| && WellFormed(joins')
    ensures forall f :: 0 <= f < |flags| ==> flags'[f] == if f in chn then 0 else flags[f]
    ensures forall f :: 0 <= f < |joins| ==> joins'[f] == if flags'[f] == 0 then [] else Live(joins[f], flags')
  {
    flags' := FlagUsed(flags, chn);
    var cleared := ClearUsed(flags', joins);
    joins' := DropLinksToUsed(flags', cleared);
    forall f | 0 <= f < |joins| ensures joins'[f] == if flags'[f] == 0 then [] else Live(joins[f], flags') {
      if flags'[f] == 0 {
        assert cleared[f] == [];
      }
    }
    PrunedWellFormed(flags', joins, joins');
  }

  /** Filtering join lists keeps every link inside the graph. */
  lemma PrunedWellFormed(flags: seq<int>, joins: seq<seq<int>>, joins': seq<seq<int>>)
    requires |flags| == |joins| == |joins'| && WellFormed(joins)
    requires forall f :: 0 <= f < |joins| ==> joins'[f] == if flags[f] == 0 then [] else Live(joins[f], flags)
    ensures WellFormed(joins')
  {
    forall f | 0 <= f < |joins| && flags[f] != 0 {
      LiveMembers(joins[f], flags);
    }
  }

  /** Retiring a chain of at least two fragments removes at least its first
      fragment from the set of joined fragments and adds none. */
  lemma {:induction false} RetireShrinks(joins: seq<seq<int>>, joins': seq<seq<int>>, flags': seq<int>, chn: seq<int>)
    requires |joins'| == |joins| == |flags'| && WellFormed(joins)
    requires |chn| > 1 && IsPath(joins, chn)
    requires flags'[chn[0]] == 0
    requires forall f :: 0 <= f < |joins| ==> joins'[f] == if flags'[f] == 0 then [] else Live(joins[f], flags')
    ensures |Joined(joins')| < |Joined(joins)|
  {
    var a, b := Joined(joins'), Joined(joins);
    assert chn[1] in joins[chn[0]];
    assert chn[0] in b && chn[0] !in a;
    assert a <= b - {chn[0]};
    SubsetCard(a, b - {chn[0]});
  }

  /** A subset is no larger than the set that holds it. */
  lemma {:induction false} SubsetCard(a: set<int>, b: set<int>)
    requires a <= b
    ensures |a| <= |b|
  {
    if a != {} {
      if forall z :: z !in a {
        assert false;
      }
      var x :| x in a;
      SubsetCard(a - {x}, b - {x});
    }
  }

  /** The fragments of a path of two or more fragments all still have a join
      in or out, so none of them has been used before. */
  lemma {:induction false} PathAvoidsUsed(flags: seq<int>, joins: seq<seq<int>>, chn: seq<int>, v: int)
    requires |chn| > 1 && IsPath(joins, chn) && v in chn
    ensures !Used(flags, joins, v)
  {
    var k :| 0 <= k < |chn| && chn[k] == v;
    if k + 1 < |chn| {
      assert chn[k + 1] in joins[chn[k]];
    } else {
      assert v in joins[chn[k - 1]];
    }
  }

  /** One round of extraction keeps the loop's invariants: the retired chain
      is a path of the original graph, all extracted fragments are used up,
      the new chain shares no fragment with earlier ones, and the pruned graph
      only loses joins. */
  lemma {:induction false} ExtractStep(joins0: seq<seq<int>>, flags: seq<int>, joins: seq<seq<int>>,
                                      chns: seq<seq<int>>, chn: seq<int>,
                                      flags': seq<int>, joins': seq<seq<int>>)
    requires |flags| == |joins| && WellFormed(joins) && SubGraph(joins, joins0)
    requires AllUsed(flags, joins, chns) && Disjoint(chns)
    requires |chn| > 1 && IsPath(joins, chn)
    requires |flags'| == |flags| && |joins'| == |joins|
    requires forall f :: 0 <= f < |flags| ==> flags'[f] == if f in chn then 0 else flags[f]
    requires forall f :: 0 <= f < |joins| ==> joins'[f] == if flags'[f] == 0 then [] else Live(joins[f], flags')
    ensures SubGraph(joins', joins0) && IsPath(joins0, chn)
    ensures AllUsed(flags', joins', chns + [chn]) && Disjoint(chns + [chn])
  {
    forall f | 0 <= f < |joins| && flags'[f] != 0
      ensures forall x :: x in joins'[f] <==> x in joins[f] && flags'[x] != 0
    {
      LiveMembers(joins[f], flags');
    }
    forall v | 0 <= v < |flags'| && flags'[v] == 0 ensures Used(flags', joins', v) {
      forall f | 0 <= f < |joins'| ensures v !in joins'[f] {
        if flags'[f] != 0 {
          assert joins'[f] == Live(joins[f], flags');
        }
      }
    }
    forall c, v | c in chns + [chn] && v in c ensures Used(flags', joins', v) {
      if c in chns {
        assert Used(flags, joins, v);
      }
    }
    forall a, b, v | 0 <= a < b < |chns + [chn]| && v in (chns + [chn])[b] ensures v !in (chns + [chn])[a] {
      if b == |chns| {
        PathAvoidsUsed(flags, joins, chn, v);
        assert chns[a] in chns;
      } else {
        assert v in chns[b];
      }
    }
  }

  /** The longest chain of the current join graph, as a path of it. */
  method NextChain(joins: seq<seq<int>>, fuel: nat) returns (chn: seq<int>)
    requires |joins| > 0 && WellFormed(joins)
    ensures |chn| > 0 && IsPath(joins, chn)
    ensures LongestChainOf(joins, fuel, chn)
  {
    ghost var counts;
    chn, counts := LongestChain(joins, fuel);
  }

  /** Retiring one more chain extends the record of the extraction: the new
      state is the pruning by all chains so far, and the chain just retired
      was the longest chain of the graph pruned by the ones before it. */
  lemma {:induction false} ExtractRecord(flags: seq<int>, joins: seq<seq<int>>, fuel: nat, chns: seq<seq<int>>,
                                         chn: seq<int>, flags': seq<int>, joins': seq<seq<int>>)
    requires |flags| == |joins| && WellFormed(joins)
    requires forall k :: 0 <= k < |chns| ==> LongestChainOf(Pruned(flags, joins, chns[..k]).1, fuel, chns[k])
    requires LongestChainOf(Pruned(flags, joins, chns).1, fuel, chn)
    requires var p := Pruned(flags, joins, chns);
      |flags'| == |p.0| && |joins'| == |p.1| &&
      (forall f :: 0 <= f < |p.0| ==> flags'[f] == if f in chn then 0 else p.0[f]) &&
      (forall f :: 0 <= f < |p.1| ==> joins'[f] == if flags'[f] == 0 then [] else Live(p.1[f], flags'))
    ensures (flags', joins') == Pruned(flags, joins, chns + [chn])
    ensures forall k :: 0 <= k < |chns + [chn]| ==>
      LongestChainOf(Pruned(flags, joins, (chns + [chn])[..k]).1, fuel, (chns + [chn])[k])
  {
    var all := chns + [chn];
    assert all[..|all| - 1] == chns;
    var p := Pruned(flags, joins, chns);
    var r := Retired(p.0, p.1, chn);
    assert flags' == r.0;
    assert joins' == r.1;
    forall k | 0 <= k < |all|
      ensures LongestChainOf(Pruned(flags, joins, all[..k]).1, fuel, all[k])
    {
      if k < |chns| {
        assert all[..k] == chns[..k];
      } else {
        assert all[..k] == chns;
      }
    }
  }

  /** One round of the extraction loop: retire the chain just found and find
      the longest chain of what is left. */
  method ExtractOne(flags: seq<int>, joins: seq<seq<int>>, fuel: nat, chns: seq<seq<int>>,
                    flags0: seq<int>, joins0: seq<seq<int>>, chn: seq<int>)
    returns (flags': seq<int>, joins': seq<seq<int>>, next: seq<int>)
    requires |joins| == |flags| > 0 && WellFormed(joins)
    requires |flags0| == |flags| && |joins0| == |joins| && WellFormed(joins0) && SubGraph(joins0, joins)
    requires IsPath(joins0, chn) && |chn| > 5
    requires AllUsed(flags0, joins0, chns) && Disjoint(chns)
    requires (flags0, joins0) == Pruned(flags, joins, chns)
    requires forall k :: 0 <= k < |chns| ==> LongestChainOf(Pruned(flags, joins, chns[..k]).1, fuel, chns[k])
    requires LongestChainOf(joins0, fuel, chn)
    ensures |flags'| == |flags| && |joins'| == |joins| && WellFormed(joins') && SubGraph(joins', joins)
    ensures IsPath(joins', next) && |next| > 0 && IsPath(joins, chn)
    ensures AllUsed(flags', joins', chns + [chn]) && Disjoint(chns + [chn])
    ensures (flags', joins') == Pruned(flags, joins, chns + [chn])
    ensures forall k :: 0 <= k < |chns + [chn]| ==>
      LongestChainOf(Pruned(flags, joins, (chns + [chn])[..k]).1, fuel, (chns + [chn])[k])
    ensures LongestChainOf(joins', fuel, next)
    ensures |Joined(joins')| < |Joined(joins0)|
  {
    flags', joins' := Retire(flags0, joins0, chn);
    ExtractStep(joins, flags0, joins0, chns, chn, flags', joins');
    RetireShrinks(joins0, joins', flags', chn);
    ExtractRecord(flags, joins, fuel, chns, chn, flags', joins');
    next := NextChain(joins', fuel);
  }

  /** Extracts longest chains while they have more than 5 fragments.  Each
      kept chain is the longest chain of the graph left by the chains before
      it, and extraction stops at the first longest chain of at most 5
      fragments (`rest`).  Every kept chain is a path of the original join
      graph; after each extraction its fragments have flag 0, no join list,
      and appear in no other join list, so the chains are pairwise disjoint,
      and the flags of all other fragments are unchanged. */
  method ExtractChains(flags: seq<int>, joins: seq<seq<int>>, fuel: nat)
    returns (chns: seq<seq<int>>, flags': seq<int>, joins': seq<seq<int>>, ghost rest: seq<int>)
    requires |joins| == |flags| > 0 && WellFormed(joins)
    ensures |flags'| == |flags| && WellFormed(joins') && SubGraph(joins', joins)
    ensures forall c :: c in chns ==> |c| > 5 && IsPath(joins, c)
    ensures AllUsed(flags', joins', chns) && Disjoint(chns)
    ensures forall f :: 0 <= f < |flags| ==> flags'[f] == if InChains(chns, f) then 0 else flags[f]
    ensures (flags', joins') == Pruned(flags, joins, chns)
    ensures forall k :: 0 <= k < |chns| ==> LongestChainOf(Pruned(flags, joins, chns[..k]).1, fuel, chns[k])
    ensures LongestChainOf(joins', fuel, rest) && |rest| <= 5
  {
    chns, flags', joins' := [], flags, joins;
    var chn := NextChain(joins', fuel);
    while |chn| > 5
      invariant |flags'| == |flags| && |joins'| == |joins| && WellFormed(joins') && SubGraph(joins', joins)
      invariant IsPath(joins', chn) && |chn| > 0
      invariant forall c :: c in chns ==> |c| > 5 && IsPath(joins, c)
      invariant AllUsed(flags', joins', chns) && Disjoint(chns)
      invariant (flags', joins') == Pruned(flags, joins, chns)
      invariant forall k :: 0 <= k < |chns| ==> LongestChainOf(Pruned(flags, joins, chns[..k]).1, fuel, chns[k])
      invariant LongestChainOf(joins', fuel, chn)
      decreases |Joined(joins')|
    {
      var next;
      flags', joins', next := ExtractOne(flags, joins, fuel, chns, flags', joins', chn);
      chns := chns + [chn];
      chn := next;
    }
    rest := chn;
    forall f | 0 <= f < |flags|
      ensures flags'[f] == if InChains(chns, f) then 0 else flags[f]
    {
      PrunedFlags(flags, joins, chns, f);
    }
  }

  // ---------------------------------------------------------------------
  // Output chains

  /** The fragment slots averaged into output residue f of a chain (f runs from
      -1 to |chn|): slot 1-r of fragment chn[f+r] for each r in -1..1 with f+r
      a position of the chain.  There is always at least one, so the average
      is defined. */
  function Sources(chn: seq<int>, f: int): (s: seq<(int, int)>)
    requires |chn| > 0 && -1 <= f <= |chn|
    ensures 1 <= |s| <= 3
    ensures forall p :: p in s ==> p.0 in chn && 0 <= p.1 < 3
  {
    (if 0 <= f - 1 < |chn| then [(chn[f - 1], 2)] else []) +
    (if 0 <= f < |chn| then [(chn[f], 1)] else []) +
    (if 0 <= f + 1 < |chn| then [(chn[f + 1], 0)] else [])
  }

  /** Gathers the sources of output residue f by the loop over r = -1, 0, 1. */
  method GatherSources(chn: seq<int>, f: int) returns (s: seq<(int, int)>)
    requires |chn| > 0 && -1 <= f <= |chn|
    ensures s == Sources(chn, f)
  {
    s := [];
    var r := -1;
    while r <= 1
      invariant -1 <= r <= 2
      invariant s == (if r > -1 && 0 <= f - 1 < |chn| then [(chn[f - 1], 2)] else []) +
                     (if r > 0 && 0 <= f < |chn| then [(chn[f], 1)] else []) +
                     (if r > 1 && 0 <= f + 1 < |chn| then [(chn[f + 1], 0)] else [])
    {
      if 0 <= f + r < |chn| {
        s := s + [(chn[f + r], 1 - r)];
      }
      r := r + 1;
    }
  }

  /** The residues of the output chain for an extracted chain of fragments:
      |chn| + 2 residues, all typed UNK, numbered 1, 2, ... in order. */
  method BuildPolymer(chn: seq<int>) returns (rs: seq<OutResidue>)
    requires |chn| > 0
    ensures |rs| == |chn| + 2
    ensures forall i :: 0 <= i < |rs| ==> rs[i].typ == "UNK" && rs[i].seqnum == i + 1
    ensures forall i :: 0 <= i < |rs| ==> rs[i].sources == Sources(chn, i - 1)
  {
    rs := [];
    var ires := 1;
    var f := -1;
    while f < |chn| + 1
      invariant -1 <= f <= |chn| + 1 && |rs| == f + 1 && ires == f + 2
      invariant forall i :: 0 <= i < |rs| ==> rs[i].typ == "UNK" && rs[i].seqnum == i + 1
      invariant forall i :: 0 <= i < |rs| ==> rs[i].sources == Sources(chn, i - 1)
    {
      var sources := GatherSources(chn, f);
      rs := rs + [OutResidue("UNK", ires, sources)];
      ires := ires + 1;
      f := f + 1;
    }
  }

  /** One output chain per extracted chain, in order: residue i of output
      chain k is an UNK residue numbered i + 1 placed from Sources(chns[k], i - 1). */
  method BuildPolymers(chns: seq<seq<int>>) returns (chains: seq<seq<OutResidue>>)
    requires forall k :: 0 <= k < |chns| ==> |chns[k]| > 0
    ensures |chains| == |chns|
    ensures forall k :: 0 <= k < |chns| ==> |chains[k]| == |chns[k]| + 2
    ensures forall k, i :: 0 <= k < |chns| && 0 <= i < |chains[k]| ==>
      chains[k][i] == OutResidue("UNK", i + 1, Sources(chns[k], i - 1))
  {
    chains := [];
    var c := 0;
    while c < |chns|
      invariant 0 <= c <= |chns| && |chains| == c
      invariant forall k :: 0 <= k < c ==> |chains[k]| == |chns[k]| + 2
      invariant forall k, i :: 0 <= k < c && 0 <= i < |chains[k]| ==>
        chains[k][i] == OutResidue("UNK", i + 1, Sources(chns[k], i - 1))
    {
      var chain := BuildPolymer(chns[c]);
      chains := chains + [chain];
      c := c + 1;
    }
  }

  /** The chain-building part of join: the join lists of the (already merged)
      fragments, the extracted chains, and one output chain per extracted
      chain.  The extracted chains are disjoint, each has at least 6
      fragments and each step of each joins two joinable fragments, and each
      output chain has at least 8 residues, numbered from 1.  Chain k is what
      longest_chain returns for the join graph pruned by chains 0 .. k-1, and
      extraction stops at the first such result of at most 5 fragments. */
  method JoinFragments(flags: seq<int>, close: (int, int) -> bool, fuel: nat)
    returns (chns: seq<seq<int>>, chains: seq<seq<OutResidue>>, ghost rest: seq<int>)
    requires |flags| > 0
    ensures forall k :: 0 <= k < |chns| ==>
      LongestChainOf(Pruned(flags, JoinGraph(flags, close), chns[..k]).1, fuel, chns[k])
    ensures LongestChainOf(Pruned(flags, JoinGraph(flags, close), chns).1, fuel, rest) && |rest| <= 5
    ensures Disjoint(chns) && |chains| == |chns|
    ensures forall k :: 0 <= k < |chns| ==> |chns[k]| > 5 && |chains[k]| == |chns[k]| + 2
    ensures forall k, i :: 0 <= k < |chns| && 0 <= i < |chains[k]| ==>
      chains[k][i] == OutResidue("UNK", i + 1, Sources(chns[k], i - 1))
    ensures forall k :: 0 <= k < |chns| ==> JoinPath(flags, close, chns[k])
  {
    var joins := BuildJoins(flags, close);
    var flags', joins';
    chns, flags', joins', rest := ExtractChains(flags, joins, fuel);
    assert forall k :: 0 <= k < |chns| ==> chns[k] in chns;
    forall k | 0 <= k < |chns|
      ensures JoinPath(flags, close, chns[k])
    {
      var c := chns[k];
      assert IsPath(joins, c);
      forall i | 0 < i < |c|
        ensures Joinable(flags, close, c[i - 1], c[i])
      {
        assert c[i] in Successors(flags, close, c[i - 1], |flags|);
      }
    }
    chains := BuildPolymers(chns);
  }
}
