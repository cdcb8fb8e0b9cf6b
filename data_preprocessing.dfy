/** Evidence propagation: balancing the two participant lists, the probability
    and certainty maps, truth booths, the ceremony blackout rule, per-man
    normalisation and the tally of ceremony pairs. */
module DataPreprocessing {
  import opened Names
  import opened Seqs
  import opened Season

  // ---------------------------------------------------------------------
  // Balancing the participant lists
  // ---------------------------------------------------------------------

  /** The n-th placeholder of one side, `dummy_woman_<n>` or `dummy_man_<n>`. */
  function DummyName(side: string, n: nat): string {
    "dummy_" + side + "_" + NatToString(n)
  }

  /** Placeholders of one side are numbered apart, so no two coincide. */
  lemma DummyNamesDistinct(side: string, i: nat, j: nat)
    requires i != j
    ensures DummyName(side, i) != DummyName(side, j)
  {
    var head := "dummy_" + side + "_";
    if DummyName(side, i) == DummyName(side, j) {
      assert NatToString(i) == DummyName(side, i)[|head|..];
      assert NatToString(j) == DummyName(side, j)[|head|..];
      NatToStringInjective(i, j);
    }
  }

  /** Both lists lower-cased; the shorter one padded with numbered placeholders. */
  method BalanceParticipants(men: seq<string>, women: seq<string>) returns (bm: seq<string>, bw: seq<string>)
    ensures |bm| == |bw| == Max(|men|, |women|)
    ensures bm[..|men|] == LowerAll(men) && bw[..|women|] == LowerAll(women)
    ensures forall i :: |men| <= i < |bm| ==> bm[i] == DummyName("man", i - |men| + 1)
    ensures forall i :: |women| <= i < |bw| ==> bw[i] == DummyName("woman", i - |women| + 1)
  {
    bm := LowerAll(men);
    bw := LowerAll(women);
    if |bm| > |bw| {
      var diff := |bm| - |bw|;
      for i := 0 to diff
        invariant |bw| == |women| + i
        invariant bw[..|women|] == LowerAll(women)
        invariant forall j :: |women| <= j < |bw| ==> bw[j] == DummyName("woman", j - |women| + 1)
      {
        bw := bw + [DummyName("woman", i + 1)];
      }
    } else if |bw| > |bm| {
      var diff := |bw| - |bm|;
      for i := 0 to diff
        invariant |bm| == |men| + i
        invariant bm[..|men|] == LowerAll(men)
        invariant forall j :: |men| <= j < |bm| ==> bm[j] == DummyName("man", j - |men| + 1)
      {
        bm := bm + [DummyName("man", i + 1)];
      }
    }
  }

  /** Balanced names are lower-case, so folding them again changes nothing. */
  lemma BalancedAreLower(names: seq<string>, n: nat, side: string)
    requires IsLower(side)
    requires n <= |names|
    requires forall i :: 0 <= i < n ==> IsLower(names[i])
    requires forall i :: n <= i < |names| ==> names[i] == DummyName(side, i - n + 1)
    ensures LowerAll(names) == names
  {
    forall i | 0 <= i < |names| ensures IsLower(names[i]) {
      if i >= n {
        var d := DummyName(side, i - n + 1);
        assert d == "dummy_" + side + "_" + NatToString(i - n + 1);
        assert IsLower(NatToString(i - n + 1));
      }
    }
    LowerAllOfLower(names);
  }

  // ---------------------------------------------------------------------
  // The probability and certainty maps as a value
  // ---------------------------------------------------------------------

  /** The probability map and the `fixed` (certainty) map. */
  datatype Store = Store(probs: map<Pair, real>, fixed: map<Pair, bool>)

  predicate Sure(s: Store, k: Pair) {
    IsSure(s.probs, s.fixed, k)
  }

  /** `initialize_probabilities`: every (man, woman) cell at 0.5, not fixed. */
  function InitialStore(men: seq<string>, women: seq<string>): (r: Store)
    ensures r.probs.Keys == r.fixed.Keys == Cells(men, women)
    ensures forall k :: k in r.probs ==> r.probs[k] == 0.5 && !r.fixed[k]
  {
    Store(map k | k in Cells(men, women) :: 0.5, map k | k in Cells(men, women) :: false)
  }

  /** Both maps set at one key. */
  function SetCell(s: Store, k: Pair, p: real, f: bool): (r: Store)
    ensures r.probs.Keys == s.probs.Keys + {k} && r.fixed.Keys == s.fixed.Keys + {k}
  {
    Store(s.probs[k := p], s.fixed[k := f])
  }

  /** Every cell of `cells` set to (0.0, fixed), adding the keys that are missing. */
  function ForceZero(s: Store, cells: set<Pair>): (r: Store)
    ensures r.probs.Keys == s.probs.Keys + cells && r.fixed.Keys == s.fixed.Keys + cells
  {
    Store(map k | k in s.probs.Keys + cells :: if k in cells then 0.0 else s.probs[k],
          map k | k in s.fixed.Keys + cells :: if k in cells then true else s.fixed[k])
  }

  /** Two maps that agree with `ForceZero(s, cells)` key by key are that state. */
  lemma ForceZeroPointwise(s: Store, cells: set<Pair>, p: map<Pair, real>, f: map<Pair, bool>)
    requires p.Keys == s.probs.Keys + cells && f.Keys == s.fixed.Keys + cells
    requires forall k :: k in p ==> p[k] == if k in cells then 0.0 else s.probs[k]
    requires forall k :: k in f ==> f[k] == if k in cells then true else s.fixed[k]
    ensures Store(p, f) == ForceZero(s, cells)
  {
    assert p == ForceZero(s, cells).probs;
    assert f == ForceZero(s, cells).fixed;
  }

  /** Forcing no cell changes nothing. */
  lemma ForceZeroNothing(s: Store)
    requires s.probs.Keys == s.fixed.Keys
    ensures ForceZero(s, {}) == s
  {
    ForceZeroPointwise(s, {}, s.probs, s.fixed);
  }

  /** A cell is confirmed after forcing exactly when it was before and was not forced. */
  lemma ForceZeroSure(s: Store, cells: set<Pair>, k: Pair)
    ensures Sure(ForceZero(s, cells), k) <==> Sure(s, k) && k !in cells
  {
  }

  /** One cell set to (0.0, fixed) unless it is a confirmed match. */
  function ForceOne(s: Store, k: Pair): Store {
    if Sure(s, k) then s else Store(s.probs[k := 0.0], s.fixed[k := true])
  }

  /** Forcing one more cell that was not confirmed before is forcing the larger set. */
  lemma ForceZeroNext(s: Store, cells: set<Pair>, k: Pair)
    ensures ForceOne(ForceZero(s, cells), k) == ForceZero(s, cells + (if Sure(s, k) then {} else {k}))
  {
    var r := ForceZero(s, cells);
    ForceZeroSure(s, cells, k);
    if !Sure(s, k) {
      ForceZeroPointwise(s, cells + {k}, r.probs[k := 0.0], r.fixed[k := true]);
    } else {
      assert cells + {} == cells;
    }
  }

  /** A key other than `pair` in the row (byMan) or the column (not byMan) of `pair`. */
  predicate InLine(k: Pair, pair: Pair, byMan: bool) {
    (if byMan then k.0 == pair.0 else k.1 == pair.1) && k != pair
  }

  function LineOf(keys: set<Pair>, pair: Pair, byMan: bool): set<Pair> {
    set k | k in keys && InLine(k, pair, byMan)
  }

  /** One truth booth, in the order the source applies it: the named cell
      first, then the scan of the man's row, then the scan of the woman's column. */
  function BoothStep(s: Store, b: Booth): (r: Store)
    ensures s.probs.Keys == s.fixed.Keys ==> r.probs.Keys == r.fixed.Keys == s.probs.Keys + {LowerPair((b.man, b.woman))}
  {
    var pair := LowerPair((b.man, b.woman));
    if b.isMatch then
      var s1 := SetCell(s, pair, 1.0, true);
      var s2 := ForceZero(s1, LineOf(s1.probs.Keys, pair, true));
      ForceZero(s2, LineOf(s2.probs.Keys, pair, false))
    else
      SetCell(s, pair, 0.0, true)
  }

  /** A confirmed booth (m, w): the cell becomes (1.0, fixed), every other cell of
      row m and of column w becomes (0.0, fixed), and every cell outside that row
      and column keeps its value. */
  lemma MatchBoothEffect(s: Store, b: Booth)
    requires s.probs.Keys == s.fixed.Keys && b.isMatch
    ensures var r, pair := BoothStep(s, b), LowerPair((b.man, b.woman));
            && r.probs[pair] == 1.0 && r.fixed[pair]
            && (forall k :: k in r.probs && k != pair && (k.0 == pair.0 || k.1 == pair.1)
                            ==> r.probs[k] == 0.0 && r.fixed[k])
            && (forall k :: k in s.probs && k.0 != pair.0 && k.1 != pair.1
                            ==> r.probs[k] == s.probs[k] && r.fixed[k] == s.fixed[k])
  {
    var pair := LowerPair((b.man, b.woman));
    var s1 := SetCell(s, pair, 1.0, true);
    var row := LineOf(s1.probs.Keys, pair, true);
    var s2 := ForceZero(s1, row);
    var col := LineOf(s2.probs.Keys, pair, false);
    var r := ForceZero(s2, col);
    assert r == BoothStep(s, b);
    assert pair !in row && pair !in col;
    assert r.probs[pair] == s2.probs[pair] == s1.probs[pair] == 1.0;
    assert r.fixed[pair] == s2.fixed[pair] == s1.fixed[pair];
    forall k | k in r.probs && k != pair && (k.0 == pair.0 || k.1 == pair.1)
      ensures r.probs[k] == 0.0 && r.fixed[k]
    {
      if k.0 == pair.0 {
        assert k in row && k in s2.probs;
        if k !in col {
          assert r.probs[k] == s2.probs[k];
        }
      } else {
        assert k in col;
      }
    }
  }

  /** A rejected booth sets only its own cell, to (0.0, fixed). */
  lemma NoMatchBoothEffect(s: Store, b: Booth)
    requires !b.isMatch
    ensures var r, pair := BoothStep(s, b), LowerPair((b.man, b.woman));
            && r.probs[pair] == 0.0 && r.fixed[pair]
            && (forall k :: k in s.probs && k != pair ==> r.probs[k] == s.probs[k])
            && (forall k :: k in s.fixed && k != pair ==> r.fixed[k] == s.fixed[k])
  {
  }

  /** `update_truth_booths`: the booths applied in list order. */
  function ApplyBooths(s: Store, booths: seq<Booth>): (r: Store)
    requires s.probs.Keys == s.fixed.Keys
    ensures r.probs.Keys == r.fixed.Keys && s.probs.Keys <= r.probs.Keys
  {
    if booths == [] then s else BoothStep(ApplyBooths(s, booths[..|booths| - 1]), booths[|booths| - 1])
  }

  /** The state invariant of propagation: every cell at 1.0 is fixed, and every
      other cell in its row and in its column is fixed at 0.0. */
  ghost predicate Resolved(s: Store) {
    && s.probs.Keys == s.fixed.Keys
    && (forall k :: k in s.probs && s.probs[k] == 1.0 ==> s.fixed[k])
    && (forall k, k2 :: k in s.probs && k2 in s.probs && s.probs[k] == 1.0 && k2 != k && (k2.0 == k.0 || k2.1 == k.1)
                        ==> s.probs[k2] == 0.0 && s.fixed[k2])
  }

  /** Under the invariant, a cell at 1.0 clears every other cell of its row and column. */
  lemma ResolvedClears(s: Store, k: Pair, k2: Pair)
    requires Resolved(s)
    requires k in s.probs && k2 in s.probs && s.probs[k] == 1.0 && k2 != k && (k2.0 == k.0 || k2.1 == k.1)
    ensures s.probs[k2] == 0.0 && s.fixed[k2]
  {
  }

  /** Under the invariant, a row or a column holds at most one cell at 1.0. */
  lemma ResolvedAtMostOnePerLine(s: Store, k: Pair, k2: Pair)
    requires Resolved(s)
    requires k in s.probs && k2 in s.probs && s.probs[k] == 1.0 && s.probs[k2] == 1.0
    requires k.0 == k2.0 || k.1 == k2.1
    ensures k == k2
  {
  }

  lemma InitialResolved(men: seq<string>, women: seq<string>)
    ensures Resolved(InitialStore(men, women))
  {
  }

  /** Each truth booth keeps the invariant. */
  lemma BoothPreservesResolved(s: Store, b: Booth)
    requires Resolved(s)
    ensures Resolved(BoothStep(s, b))
  {
    if b.isMatch {
      MatchBoothPreservesResolved(s, b);
    } else {
      NoMatchBoothPreservesResolved(s, b);
    }
  }

  /** A confirmed pair is the only 1.0 left on its row and column; any other
      1.0 lies off both, so its own lines were already cleared. */
  lemma MatchBoothPreservesResolved(s: Store, b: Booth)
    requires Resolved(s) && b.isMatch
    ensures Resolved(BoothStep(s, b))
  {
    var r := BoothStep(s, b);
    MatchBoothEffect(s, b);
    forall k, k2 | k in r.probs && k2 in r.probs && r.probs[k] == 1.0 && k2 != k && (k2.0 == k.0 || k2.1 == k.1)
      ensures r.probs[k2] == 0.0 && r.fixed[k2]
    {
      MatchBoothClears(s, b, k, k2);
    }
  }

  /** One pair of cells on a line after a confirmed booth. */
  lemma MatchBoothClears(s: Store, b: Booth, k: Pair, k2: Pair)
    requires Resolved(s) && b.isMatch
    requires var r := BoothStep(s, b);
             k in r.probs && k2 in r.probs && r.probs[k] == 1.0 && k2 != k && (k2.0 == k.0 || k2.1 == k.1)
    ensures var r := BoothStep(s, b); r.probs[k2] == 0.0 && r.fixed[k2]
  {
    var pair := LowerPair((b.man, b.woman));
    MatchBoothEffect(s, b);
    if k != pair {
      assert k.0 != pair.0 && k.1 != pair.1;
      assert s.probs[k] == 1.0;
      if k2 == pair || (k2.0 != pair.0 && k2.1 != pair.1) {
        assert k2 != pair && k2 in s.probs;
        ResolvedClears(s, k, k2);
      }
    }
  }

  /** A ruled-out pair is 0.0, so it holds no 1.0 and clearing it breaks nothing. */
  lemma NoMatchBoothPreservesResolved(s: Store, b: Booth)
    requires Resolved(s) && !b.isMatch
    ensures Resolved(BoothStep(s, b))
  {
    var r := BoothStep(s, b);
    var pair := LowerPair((b.man, b.woman));
    NoMatchBoothEffect(s, b);
    forall k, k2 | k in r.probs && k2 in r.probs && r.probs[k] == 1.0 && k2 != k && (k2.0 == k.0 || k2.1 == k.1)
      ensures r.probs[k2] == 0.0 && r.fixed[k2]
    {
      assert k != pair && s.probs[k] == 1.0;
    }
  }

  /** So it holds after any sequence of booths. */
  lemma {:induction false} ApplyBoothsPreservesResolved(s: Store, booths: seq<Booth>)
    requires Resolved(s)
    ensures Resolved(ApplyBooths(s, booths))
  {
    if booths != [] {
      ApplyBoothsPreservesResolved(s, booths[..|booths| - 1]);
      BoothPreservesResolved(ApplyBooths(s, booths[..|booths| - 1]), booths[|booths| - 1]);
    }
  }

  /** After the truth booths of a season, no row and no column holds two cells at 1.0. */
  lemma BoothsOneMatchPerLine(men: seq<string>, women: seq<string>, booths: seq<Booth>, k: Pair, k2: Pair)
    requires var s := ApplyBooths(InitialStore(men, women), booths);
             k in s.probs && k2 in s.probs && s.probs[k] == 1.0 && s.probs[k2] == 1.0
    requires k.0 == k2.0 || k.1 == k2.1
    ensures k == k2
  {
    InitialResolved(men, women);
    ApplyBoothsPreservesResolved(InitialStore(men, women), booths);
    ResolvedAtMostOnePerLine(ApplyBooths(InitialStore(men, women), booths), k, k2);
  }

  // ---------------------------------------------------------------------
  // Match ceremonies and the blackout rule
  // ---------------------------------------------------------------------

  /** `confirmed_match_count`: how many listed pairs (lower-cased) are confirmed matches. */
  function Confirmed(s: Store, pairs: seq<Pair>): (r: nat)
    ensures r <= |pairs|
    ensures r == 0 <==> forall i :: 0 <= i < |pairs| ==> !Sure(s, LowerPair(pairs[i]))
  {
    if pairs == [] then 0
    else Confirmed(s, pairs[..|pairs| - 1]) + (if Sure(s, LowerPair(pairs[|pairs| - 1])) then 1 else 0)
  }

  /** The cells a blackout forces to (0.0, fixed): the listed pairs, lower-cased,
      that are not confirmed. */
  function BlackoutCells(s: Store, pairs: seq<Pair>): (r: set<Pair>)
    ensures forall k :: k in r <==> !Sure(s, k) && exists i :: 0 <= i < |pairs| && LowerPair(pairs[i]) == k
  {
    if pairs == [] then {}
    else
      var k := LowerPair(pairs[|pairs| - 1]);
      BlackoutCells(s, pairs[..|pairs| - 1]) + (if Sure(s, k) then {} else {k})
  }

  /** The blackout cells of one more listed pair. */
  lemma BlackoutCellsNext(s: Store, pairs: seq<Pair>, i: nat)
    requires i < |pairs|
    ensures var k := LowerPair(pairs[i]);
            BlackoutCells(s, pairs[..i + 1]) == BlackoutCells(s, pairs[..i]) + (if Sure(s, k) then {} else {k})
  {
    PrefixOfPrefix(pairs, i);
  }

  /** One ceremony: with confirmed pairs, the score drops by their number (never
      below 0), and a score that reaches 0 blacks out the other listed pairs.
      Returns the new state and the ceremony with its score overwritten. */
  function CeremonyStep(s: Store, c: Ceremony): (r: (Store, Ceremony))
    ensures s.probs.Keys == s.fixed.Keys ==> r.0.probs.Keys == r.0.fixed.Keys && s.probs.Keys <= r.0.probs.Keys
    ensures r.1.pairs == c.pairs && r.1.labels == c.labels
  {
    var confirmed := Confirmed(s, c.pairs);
    if confirmed > 0 then
      var score := Max(c.score - confirmed, 0);
      (if score == 0 then ForceZero(s, BlackoutCells(s, c.pairs)) else s, c.(score := score))
    else
      (s, c)
  }

  /** What one ceremony does: without a confirmed pair nothing changes; with
      n of them, the new score is max(score - n, 0), and the maps change only on
      a blackout; confirmed cells and cells the ceremony does not list are never
      altered; and on a blackout every unconfirmed listed pair is (0.0, fixed). */
  lemma CeremonyStepEffect(s: Store, c: Ceremony)
    requires s.probs.Keys == s.fixed.Keys
    ensures var r, n := CeremonyStep(s, c), Confirmed(s, c.pairs);
            && (n == 0 ==> r == (s, c))
            && (n > 0 ==> r.1.score == Max(c.score - n, 0))
            && (r.0 != s ==> n > 0 && r.1.score == 0)
            && (forall k :: Sure(s, k) ==> r.0.probs[k] == s.probs[k] && r.0.fixed[k] == s.fixed[k])
            && (forall k :: k in s.probs && (forall i :: 0 <= i < |c.pairs| ==> LowerPair(c.pairs[i]) != k)
                            ==> r.0.probs[k] == s.probs[k] && r.0.fixed[k] == s.fixed[k])
            && (n > 0 && r.1.score == 0 ==>
                  forall i :: 0 <= i < |c.pairs| && !Sure(s, LowerPair(c.pairs[i]))
                              ==> LowerPair(c.pairs[i]) in r.0.probs
                                  && r.0.probs[LowerPair(c.pairs[i])] == 0.0 && r.0.fixed[LowerPair(c.pairs[i])])
  {
    var cells := BlackoutCells(s, c.pairs);
    forall k | k in cells ensures !Sure(s, k) && exists i :: 0 <= i < |c.pairs| && LowerPair(c.pairs[i]) == k {
      var i :| 0 <= i < |c.pairs| && !Sure(s, LowerPair(c.pairs[i])) && LowerPair(c.pairs[i]) == k;
    }
    forall i | 0 <= i < |c.pairs| && !Sure(s, LowerPair(c.pairs[i])) ensures LowerPair(c.pairs[i]) in cells {
    }
  }

  /** A ceremony scored 0 with no confirmed pair among its listed pairs is not
      blacked out: the rule only fires once a confirmed pair was subtracted. */
  lemma ZeroScoreWithoutConfirmedIsNoBlackout(s: Store, c: Ceremony)
    requires s.probs.Keys == s.fixed.Keys
    requires c.score == 0
    requires forall i :: 0 <= i < |c.pairs| ==> !Sure(s, LowerPair(c.pairs[i]))
    ensures CeremonyStep(s, c) == (s, c)
  {
  }

  /** Each ceremony keeps the propagation invariant. */
  lemma CeremonyPreservesResolved(s: Store, c: Ceremony)
    requires Resolved(s)
    ensures Resolved(CeremonyStep(s, c).0)
  {
    var r := CeremonyStep(s, c).0;
    CeremonyStepEffect(s, c);
    if r != s {
      var cells := BlackoutCells(s, c.pairs);
      assert r == ForceZero(s, cells);
      forall k | k in cells ensures !Sure(s, k) {
        var i :| 0 <= i < |c.pairs| && !Sure(s, LowerPair(c.pairs[i])) && LowerPair(c.pairs[i]) == k;
      }
      forall k, k2 | k in r.probs && k2 in r.probs && r.probs[k] == 1.0 && k2 != k && (k2.0 == k.0 || k2.1 == k.1)
        ensures r.probs[k2] == 0.0 && r.fixed[k2]
      {
        assert k !in cells && s.probs[k] == 1.0;
      }
    }
  }

  /** All ceremonies in list order; returns the state and the adjusted ceremonies. */
  function ApplyCeremonies(s: Store, cs: seq<Ceremony>): (r: (Store, seq<Ceremony>))
    requires s.probs.Keys == s.fixed.Keys
    ensures r.0.probs.Keys == r.0.fixed.Keys && s.probs.Keys <= r.0.probs.Keys
    ensures |r.1| == |cs|
  {
    if cs == [] then (s, [])
    else
      var prev := ApplyCeremonies(s, cs[..|cs| - 1]);
      var step := CeremonyStep(prev.0, cs[|cs| - 1]);
      (step.0, prev.1 + [step.1])
  }

  lemma {:induction false} ApplyCeremoniesPreservesResolved(s: Store, cs: seq<Ceremony>)
    requires Resolved(s)
    ensures Resolved(ApplyCeremonies(s, cs).0)
  {
    if cs != [] {
      ApplyCeremoniesPreservesResolved(s, cs[..|cs| - 1]);
      CeremonyPreservesResolved(ApplyCeremonies(s, cs[..|cs| - 1]).0, cs[|cs| - 1]);
    }
  }

  /** The ceremonies that follow the booths keep it so: a blackout only writes 0.0. */
  lemma CeremoniesOneMatchPerLine(men: seq<string>, women: seq<string>, booths: seq<Booth>, cs: seq<Ceremony>,
                                  k: Pair, k2: Pair)
    requires var s := ApplyCeremonies(ApplyBooths(InitialStore(men, women), booths), cs).0;
             k in s.probs && k2 in s.probs && s.probs[k] == 1.0 && s.probs[k2] == 1.0
    requires k.0 == k2.0 || k.1 == k2.1
    ensures k == k2
  {
    var s1 := ApplyBooths(InitialStore(men, women), booths);
    InitialResolved(men, women);
    ApplyBoothsPreservesResolved(InitialStore(men, women), booths);
    ApplyCeremoniesPreservesResolved(s1, cs);
    ResolvedAtMostOnePerLine(ApplyCeremonies(s1, cs).0, k, k2);
  }

  // ---------------------------------------------------------------------
  // Normalisation
  // ---------------------------------------------------------------------

  /** `has_fixed_match`: some woman of the list is a confirmed match of the man. */
  predicate HasFixedMatch(s: Store, man: string, women: seq<string>) {
    exists w :: w in women && Sure(s, (man, w))
  }

  /** `possible_women`: the women (in list order) whose cell with the man is not fixed. */
  function Possible(fixed: map<Pair, bool>, man: string, women: seq<string>): (r: seq<string>)
    requires forall w :: w in women ==> (man, w) in fixed
    ensures |r| <= |women|
    ensures forall w :: w in r <==> w in women && !fixed[(man, w)]
  {
    if women == [] then []
    else
      var init := Possible(fixed, man, women[..|women| - 1]);
      var w := women[|women| - 1];
      if fixed[(man, w)] then init else init + [w]
  }

  /** A cell that normalisation rewrites: its man is listed and has no confirmed
      match, its woman is listed, and the cell is not fixed. */
  predicate Normalizable(s: Store, k: Pair, men: seq<string>, women: seq<string>)
    requires k in s.fixed
  {
    k.0 in men && k.1 in women && !s.fixed[k] && !HasFixedMatch(s, k.0, women)
  }

  /** The value each of a man's non-fixed cells gets: 1/k, k his number of
      non-fixed women. */
  function Share(fixed: map<Pair, bool>, man: string, women: seq<string>): (r: real)
    requires forall w :: w in women ==> (man, w) in fixed
    requires Possible(fixed, man, women) != []
    ensures 0.0 < r <= 1.0
    ensures (|Possible(fixed, man, women)| as real) * r == 1.0
  {
    1.0 / (|Possible(fixed, man, women)| as real)
  }

  /** The value of one cell after normalisation. */
  function NormalizedValue(s: Store, k: Pair, men: seq<string>, women: seq<string>): real
    requires k in s.probs && k in s.fixed
    requires forall w :: w in women ==> (k.0, w) in s.fixed
  {
    if Normalizable(s, k, men, women) then
      assert k.1 in Possible(s.fixed, k.0, women) by { assert (k.0, k.1) == k; }
      Share(s.fixed, k.0, women)
    else s.probs[k]
  }

  /** `normalize_possible_pairs` as a whole: every rewritten cell holds 1/k, k the
      number of the man's non-fixed women; every other cell keeps its value. */
  function NormalizeSpec(s: Store, men: seq<string>, women: seq<string>): (r: Store)
    requires s.probs.Keys == s.fixed.Keys
    requires Covers(s.probs.Keys, men, women)
    ensures r.fixed == s.fixed && r.probs.Keys == s.probs.Keys
    ensures forall k :: k in s.probs && s.fixed[k] ==> r.probs[k] == s.probs[k]
    ensures forall k :: k in s.probs && HasFixedMatch(s, k.0, women) ==> r.probs[k] == s.probs[k]
  {
    Store(map k | k in s.probs ::
            if k.0 in men then NormalizedValue(s, k, men, women) else s.probs[k],
          s.fixed)
  }

  /** Sum of a man's cells over a list of women. */
  function RowSum(probs: map<Pair, real>, man: string, women: seq<string>): real
    requires forall w :: w in women ==> (man, w) in probs
  {
    if women == [] then 0.0
    else RowSum(probs, man, women[..|women| - 1]) + probs[(man, women[|women| - 1])]
  }

  /** A row whose listed cells all hold 1/n, over a list of n women, sums to 1. */
  lemma RowSumConstant(probs: map<Pair, real>, man: string, women: seq<string>, v: real)
    requires women != [] && v == 1.0 / (|women| as real)
    requires forall w :: w in women ==> (man, w) in probs && probs[(man, w)] == v
    ensures RowSum(probs, man, women) == 1.0
  {
    RowSumRepeat(probs, man, women, v);
  }

  /** A row whose listed cells all hold v sums to v times the length of the list. */
  lemma {:induction false} RowSumRepeat(probs: map<Pair, real>, man: string, women: seq<string>, v: real)
    requires forall w :: w in women ==> (man, w) in probs && probs[(man, w)] == v
    ensures RowSum(probs, man, women) == |women| as real * v
  {
    if women != [] {
      RowSumRepeat(probs, man, women[..|women| - 1], v);
    }
  }

  /** After normalisation, a man without a confirmed match has his non-fixed
      cells summing to 1 (counted over the list of his possible women). */
  lemma NormalizedRowSumsToOne(s: Store, men: seq<string>, women: seq<string>, man: string)
    requires s.probs.Keys == s.fixed.Keys
    requires Covers(s.probs.Keys, men, women)
    requires man in men && !HasFixedMatch(s, man, women)
    requires Possible(s.fixed, man, women) != []
    ensures forall w :: w in Possible(s.fixed, man, women) ==> (man, w) in NormalizeSpec(s, men, women).probs
    ensures RowSum(NormalizeSpec(s, men, women).probs, man, Possible(s.fixed, man, women)) == 1.0
  {
    NormalizedRowIsShare(s, men, women, man);
    var ps := Possible(s.fixed, man, women);
    RowSumConstant(NormalizeSpec(s, men, women).probs, man, ps, 1.0 / (|ps| as real));
  }

  /** Every possible cell of a man without a confirmed match holds 1/k after normalisation. */
  lemma NormalizedRowIsShare(s: Store, men: seq<string>, women: seq<string>, man: string)
    requires s.probs.Keys == s.fixed.Keys
    requires Covers(s.probs.Keys, men, women)
    requires man in men && !HasFixedMatch(s, man, women)
    requires Possible(s.fixed, man, women) != []
    ensures forall w :: w in Possible(s.fixed, man, women) ==>
              (man, w) in NormalizeSpec(s, men, women).probs &&
              NormalizeSpec(s, men, women).probs[(man, w)] == 1.0 / (|Possible(s.fixed, man, women)| as real)
  {
    forall w | w in Possible(s.fixed, man, women)
      ensures (man, w) in NormalizeSpec(s, men, women).probs
      ensures NormalizeSpec(s, men, women).probs[(man, w)] == 1.0 / (|Possible(s.fixed, man, women)| as real)
    {
      NormalizedPossibleCell(s, men, women, man, w);
    }
  }

  /** One cell of a man without a confirmed match, with a possible woman, gets his share. */
  lemma NormalizedPossibleCell(s: Store, men: seq<string>, women: seq<string>, man: string, w: string)
    requires s.probs.Keys == s.fixed.Keys
    requires Covers(s.probs.Keys, men, women)
    requires man in men && !HasFixedMatch(s, man, women)
    requires w in Possible(s.fixed, man, women)
    ensures (man, w) in NormalizeSpec(s, men, women).probs
    ensures NormalizeSpec(s, men, women).probs[(man, w)] == Share(s.fixed, man, women)
  {
    assert Normalizable(s, (man, w), men, women);
  }

  /** A man with no non-fixed cell among the listed women keeps his whole row. */
  lemma NormalizeEmptyRowUnchanged(s: Store, men: seq<string>, women: seq<string>, man: string)
    requires s.probs.Keys == s.fixed.Keys
    requires Covers(s.probs.Keys, men, women)
    requires man in men
    requires Possible(s.fixed, man, women) == []
    ensures forall k :: k in s.probs && k.0 == man ==> NormalizeSpec(s, men, women).probs[k] == s.probs[k]
  {
    forall k | k in s.probs && k.0 == man ensures NormalizeSpec(s, men, women).probs[k] == s.probs[k] {
      assert (man, k.1) == k;
      assert k.1 !in Possible(s.fixed, man, women);
      assert !Normalizable(s, k, men, women);
    }
  }

  // ---------------------------------------------------------------------
  // The maps as an object that propagation updates in place
  // ---------------------------------------------------------------------

  class ConstraintStore {
    var probabilities: map<Pair, real>
    var fixed: map<Pair, bool>

    ghost predicate Valid()
      reads this
    {
      probabilities.Keys == fixed.Keys
    }

    function Snapshot(): Store
      reads this
    {
      Store(probabilities, fixed)
    }

    /** `initialize_probabilities`. */
    constructor Init(men: seq<string>, women: seq<string>)
      ensures Valid() && Snapshot() == InitialStore(LowerAll(men), LowerAll(women))
    {
      var ms, ws := LowerAll(men), LowerAll(women);
      var p: map<Pair, real> := map[];
      var f: map<Pair, bool> := map[];
      for i := 0 to |ms|
        invariant p.Keys == f.Keys
        invariant forall k :: k in p <==> k.0 in ms[..i] && k.1 in ws
        invariant forall k :: k in p ==> p[k] == 0.5 && !f[k]
      {
        for j := 0 to |ws|
          invariant p.Keys == f.Keys
          invariant forall k :: k in p <==> (k.0 in ms[..i] && k.1 in ws) || (k.0 == ms[i] && k.1 in ws[..j])
          invariant forall k :: k in p ==> p[k] == 0.5 && !f[k]
        {
          p := p[(ms[i], ws[j]) := 0.5];
          f := f[(ms[i], ws[j]) := false];
          assert ws[..j + 1] == ws[..j] + [ws[j]];
        }
        assert ws[..|ws|] == ws && ms[..i + 1] == ms[..i] + [ms[i]];
      }
      assert ms[..|ms|] == ms;
      assert p == InitialStore(ms, ws).probs;
      assert f == InitialStore(ms, ws).fixed;
      probabilities := p;
      fixed := f;
    }

    /** One of the two key scans of a confirmed booth: every other key in the
        row (byMan) or the column of `pair` becomes (0.0, fixed). */
    method ExcludeOthers(pair: Pair, byMan: bool)
      requires Valid()
      modifies this
      ensures Valid()
      ensures Snapshot() == ForceZero(old(Snapshot()), LineOf(old(probabilities).Keys, pair, byMan))
    {
      var keys := probabilities.Keys;
      var todo := keys;
      while todo != {}
        invariant todo <= keys && probabilities.Keys == keys && fixed.Keys == keys
        invariant forall k :: k in keys ==>
                    probabilities[k] == (if k !in todo && InLine(k, pair, byMan) then 0.0 else old(probabilities)[k])
                    && fixed[k] == (if k !in todo && InLine(k, pair, byMan) then true else old(fixed)[k])
        decreases todo
      {
        var k :| k in todo;
        if InLine(k, pair, byMan) {
          probabilities := probabilities[k := 0.0];
          fixed := fixed[k := true];
        }
        todo := todo - {k};
      }
      ForceZeroPointwise(old(Snapshot()), LineOf(keys, pair, byMan), probabilities, fixed);
    }

    /** One truth booth. */
    method ApplyBooth(b: Booth)
      requires Valid()
      modifies this
      ensures Valid() && Snapshot() == BoothStep(old(Snapshot()), b)
    {
      var pair := LowerPair((b.man, b.woman));
      if b.isMatch {
        probabilities := probabilities[pair := 1.0];
        fixed := fixed[pair := true];
        ExcludeOthers(pair, true);
        ExcludeOthers(pair, false);
      } else {
        probabilities := probabilities[pair := 0.0];
        fixed := fixed[pair := true];
      }
    }

    /** `update_truth_booths`. */
    method UpdateTruthBooths(booths: seq<Booth>)
      requires Valid()
      modifies this
      ensures Valid() && Snapshot() == ApplyBooths(old(Snapshot()), booths)
    {
      for i := 0 to |booths|
        invariant Valid() && Snapshot() == ApplyBooths(old(Snapshot()), booths[..i])
      {
        ApplyBooth(booths[i]);
        PrefixOfPrefix(booths, i);
      }
      assert booths[..|booths|] == booths;
    }

    /** The blackout loop: every listed pair that is not a confirmed match
        becomes (0.0, fixed). */
    method Blackout(pairs: seq<Pair>)
      requires Valid()
      modifies this
      ensures Valid() && Snapshot() == ForceZero(old(Snapshot()), BlackoutCells(old(Snapshot()), pairs))
    {
      ghost var s0 := Snapshot();
      ghost var cells: set<Pair> := {};
      ForceZeroNothing(s0);
      for i := 0 to |pairs|
        invariant cells == BlackoutCells(s0, pairs[..i])
        invariant Valid() && Snapshot() == ForceZero(s0, cells)
      {
        var key := LowerPair(pairs[i]);
        ZeroUnlessSure(key);
        BlackoutCellsNext(s0, pairs, i);
        ForceZeroNext(s0, cells, key);
        cells := cells + (if Sure(s0, key) then {} else {key});
      }
      assert pairs[..|pairs|] == pairs;
    }

    /** The blackout loop body: the cell becomes (0.0, fixed) unless it is a confirmed match. */
    method ZeroUnlessSure(key: Pair)
      requires Valid()
      modifies this
      ensures Valid() && Snapshot() == ForceOne(old(Snapshot()), key)
    {
      if !Sure(Snapshot(), key) {
        probabilities := probabilities[key := 0.0];
        fixed := fixed[key := true];
      }
    }

    /** The count of a ceremony's pairs (lower-cased) that are confirmed matches. */
    method CountConfirmed(pairs: seq<Pair>) returns (confirmed: nat)
      requires Valid()
      ensures confirmed == Confirmed(Snapshot(), pairs)
    {
      confirmed := 0;
      for i := 0 to |pairs|
        invariant confirmed == Confirmed(Snapshot(), pairs[..i])
      {
        var key := LowerPair(pairs[i]);
        if Sure(Snapshot(), key) {
          confirmed := confirmed + 1;
        }
        PrefixOfPrefix(pairs, i);
      }
      assert pairs[..|pairs|] == pairs;
    }

    /** One ceremony, as the loop body of the ceremony block of `preprocessing`
        runs it: count the confirmed pairs, lower the score, black out on 0.
        Returns the ceremony with its score overwritten. */
    method ApplyCeremony(c: Ceremony) returns (adjusted: Ceremony)
      requires Valid()
      modifies this
      ensures Valid() && (Snapshot(), adjusted) == CeremonyStep(old(Snapshot()), c)
    {
      var confirmed := CountConfirmed(c.pairs);
      adjusted := c;
      if confirmed > 0 {
        var score := Max(c.score - confirmed, 0);
        adjusted := c.(score := score);
        if score == 0 {
          Blackout(c.pairs);
        }
      }
    }

    /** The ceremony block of `preprocessing`, over every ceremony in order. */
    method UpdateCeremonies(cs: seq<Ceremony>) returns (adjusted: seq<Ceremony>)
      requires Valid()
      modifies this
      ensures Valid() && (Snapshot(), adjusted) == ApplyCeremonies(old(Snapshot()), cs)
    {
      adjusted := [];
      for i := 0 to |cs|
        invariant Valid() && (Snapshot(), adjusted) == ApplyCeremonies(old(Snapshot()), cs[..i])
      {
        var c := ApplyCeremony(cs[i]);
        adjusted := adjusted + [c];
        PrefixOfPrefix(cs, i);
      }
      assert cs[..|cs|] == cs;
    }

    /** The inner loop of `normalize_possible_pairs`: the man's cell with each
        listed woman set to p. */
    method SpreadRow(man: string, women: seq<string>, p: real)
      requires Valid()
      requires forall w :: w in women ==> (man, w) in probabilities
      modifies this
      ensures Valid() && fixed == old(fixed) && probabilities.Keys == old(probabilities).Keys
      ensures forall k :: k in probabilities ==>
                probabilities[k] == (if k.0 == man && k.1 in women then p else old(probabilities)[k])
    {
      for j := 0 to |women|
        invariant Valid() && fixed == old(fixed) && probabilities.Keys == old(probabilities).Keys
        invariant forall k :: k in probabilities ==>
                    probabilities[k] == (if k.0 == man && k.1 in women[..j] then p else old(probabilities)[k])
      {
        probabilities := probabilities[(man, women[j]) := p];
        assert women[..j + 1] == women[..j] + [women[j]];
      }
      assert women[..|women|] == women;
    }

    /** `normalize_possible_pairs`. */
    method Normalize(men: seq<string>, women: seq<string>)
      requires Valid()
      requires Covers(probabilities.Keys, LowerAll(men), LowerAll(women))
      modifies this
      ensures Valid() && Snapshot() == NormalizeSpec(old(Snapshot()), LowerAll(men), LowerAll(women))
    {
      var ms, ws := LowerAll(men), LowerAll(women);
      ghost var s0 := Snapshot();
      for i := 0 to |ms|
        invariant Valid() && fixed == s0.fixed && probabilities.Keys == s0.probs.Keys
        invariant forall k :: k in probabilities ==>
                    probabilities[k] == (if k.0 in ms[..i] then NormalizedValue(s0, k, ms, ws) else s0.probs[k])
      {
        var man := ms[i];
        assert ms[..i + 1] == ms[..i] + [man];
        assert HasFixedMatch(Snapshot(), man, ws) == HasFixedMatch(s0, man, ws) by {
          forall w | w in ws ensures Sure(Snapshot(), (man, w)) == Sure(s0, (man, w)) {
            if fixed[(man, w)] {
              assert !Normalizable(s0, (man, w), ms, ws);
            }
          }
        }
        if !HasFixedMatch(Snapshot(), man, ws) {
          var possible := Possible(fixed, man, ws);
          if possible != [] {
            var p := 1.0 / (|possible| as real);
            SpreadRow(man, possible, p);
            forall k | k in probabilities && k.0 == man
              ensures k.1 in possible <==> Normalizable(s0, k, ms, ws)
            {
              assert (man, k.1) == k;
            }
          } else {
            forall k | k in probabilities && k.0 == man
              ensures !Normalizable(s0, k, ms, ws)
            {
              assert (man, k.1) == k;
              assert k.1 !in possible;
            }
          }
        }
      }
      assert ms[..|ms|] == ms;
      assert probabilities == NormalizeSpec(s0, ms, ws).probs;
    }
  }

  // ---------------------------------------------------------------------
  // Tally of ceremony pairs
  // ---------------------------------------------------------------------

  /** A ceremony's listed pairs, lower-cased. */
  function LowerPairs(pairs: seq<Pair>): (r: seq<Pair>)
    ensures |r| == |pairs| && forall i :: 0 <= i < |pairs| ==> r[i] == LowerPair(pairs[i])
  {
    seq(|pairs|, i requires 0 <= i < |pairs| => LowerPair(pairs[i]))
  }

  /** Every listed pair of every ceremony, lower-cased, in order. */
  function ListedPairs(cs: seq<Ceremony>): seq<Pair> {
    if cs == [] then [] else ListedPairs(cs[..|cs| - 1]) + LowerPairs(cs[|cs| - 1].pairs)
  }

  /** Sum of all counts of a tally. */
  ghost function Total(m: map<Pair, nat>): nat
    decreases |m|
  {
    if m == map[] then 0
    else
      var k :| k in m;
      m[k] + Total(m - {k})
  }

  /** The total does not depend on which key is taken first. */
  lemma {:induction false} TotalRemove(m: map<Pair, nat>, k: Pair)
    requires k in m
    ensures Total(m) == m[k] + Total(m - {k})
    decreases |m|
  {
    var k' :| k' in m && Total(m) == m[k'] + Total(m - {k'});
    if k' != k {
      assert (m - {k'}).Keys == m.Keys - {k'};
      assert (m - {k}).Keys == m.Keys - {k};
      TotalRemove(m - {k'}, k);
      TotalRemove(m - {k}, k');
      assert m - {k'} - {k} == m - {k} - {k'};
    }
  }

  /** Adding one to a count, or a new key at 1, adds one to the total. */
  lemma TotalIncrement(m: map<Pair, nat>, k: Pair)
    ensures Total(m[k := (if k in m then m[k] else 0) + 1]) == Total(m) + 1
  {
    var m' := m[k := (if k in m then m[k] else 0) + 1];
    TotalRemove(m', k);
    assert m' - {k} == m - {k};
    if k in m {
      TotalRemove(m, k);
    } else {
      assert m - {k} == m;
    }
  }

  /** `counts` tallies the pairs of `seen`: its keys are those pairs, each with
      its number of occurrences, and the counts add up to the length of `seen`. */
  ghost predicate Tallies(counts: map<Pair, nat>, seen: seq<Pair>) {
    && (forall k :: k in counts <==> k in seen)
    && (forall k :: k in counts ==> counts[k] == multiset(seen)[k])
    && Total(counts) == |seen|
  }

  /** Counting one more pair keeps the tally exact. */
  lemma TalliesAdd(counts: map<Pair, nat>, seen: seq<Pair>, key: Pair)
    requires Tallies(counts, seen)
    ensures Tallies(counts[key := (if key in counts then counts[key] else 0) + 1], seen + [key])
  {
    TotalIncrement(counts, key);
    var counts' := counts[key := (if key in counts then counts[key] else 0) + 1];
    forall k | k in counts' ensures counts'[k] == multiset(seen + [key])[k] {
      assert multiset(seen + [key]) == multiset(seen) + multiset{key};
      if k != key {
        assert k in counts;
      } else if key !in counts {
        assert key !in seen;
      }
    }
  }

  lemma TalliesAddNext(counts: map<Pair, nat>, seen0: seq<Pair>, pairs: seq<Pair>, j: nat)
    requires j < |pairs| && Tallies(counts, seen0 + LowerPairs(pairs[..j]))
    ensures var key := LowerPair(pairs[j]);
            Tallies(counts[key := (if key in counts then counts[key] else 0) + 1], seen0 + LowerPairs(pairs[..j + 1]))
  {
    assert LowerPairs(pairs[..j + 1]) == LowerPairs(pairs[..j]) + [LowerPair(pairs[j])];
    assert seen0 + LowerPairs(pairs[..j + 1]) == seen0 + LowerPairs(pairs[..j]) + [LowerPair(pairs[j])];
    TalliesAdd(counts, seen0 + LowerPairs(pairs[..j]), LowerPair(pairs[j]));
  }

  /** The inner loop of `count_pair_occurrences`: one ceremony's pairs added to the tally. */
  method TallyPairs(counts0: map<Pair, nat>, ghost seen0: seq<Pair>, pairs: seq<Pair>) returns (counts: map<Pair, nat>)
    requires Tallies(counts0, seen0)
    ensures Tallies(counts, seen0 + LowerPairs(pairs))
  {
    counts := counts0;
    for j := 0 to |pairs|
      invariant Tallies(counts, seen0 + LowerPairs(pairs[..j]))
    {
      var key := LowerPair(pairs[j]);
      TalliesAddNext(counts, seen0, pairs, j);
      counts := counts[key := (if key in counts then counts[key] else 0) + 1];
    }
    assert pairs[..|pairs|] == pairs;
  }

  /** `count_pair_occurrences`: how often each (lower-cased) pair is listed. */
  method CountPairOccurrences(cs: seq<Ceremony>) returns (counts: map<Pair, nat>)
    ensures forall k :: k in counts <==> k in ListedPairs(cs)
    ensures forall k :: k in counts ==> counts[k] == multiset(ListedPairs(cs))[k]
    ensures Total(counts) == |ListedPairs(cs)|
  {
    counts := map[];
    for i := 0 to |cs|
      invariant Tallies(counts, ListedPairs(cs[..i]))
    {
      PrefixOfPrefix(cs, i);
      counts := TallyPairs(counts, ListedPairs(cs[..i]), cs[i].pairs);
    }
    assert cs[..|cs|] == cs;
  }

  // ---------------------------------------------------------------------
  // The propagation pass of `preprocessing`
  // ---------------------------------------------------------------------

  /** Balance, initialise, apply the booths, then the ceremonies, then normalise.
      Returns the store, the balanced lists and the ceremonies with adjusted scores. */
  method Preprocess(men: seq<string>, women: seq<string>, booths: seq<Booth>, ceremonies: seq<Ceremony>)
    returns (store: ConstraintStore, bm: seq<string>, bw: seq<string>, adjusted: seq<Ceremony>)
    ensures fresh(store) && store.Valid()
    ensures |bm| == |bw| == Max(|men|, |women|)
    ensures bm[..|men|] == LowerAll(men) && bw[..|women|] == LowerAll(women)
    ensures forall i :: |men| <= i < |bm| ==> bm[i] == DummyName("man", i - |men| + 1)
    ensures forall i :: |women| <= i < |bw| ==> bw[i] == DummyName("woman", i - |women| + 1)
    ensures var s1 := ApplyBooths(InitialStore(bm, bw), booths);
            var s2 := ApplyCeremonies(s1, ceremonies);
            && Resolved(s2.0)
            && adjusted == s2.1
            && store.Snapshot() == NormalizeSpec(s2.0, bm, bw)
  {
    bm, bw := BalanceParticipants(men, women);
    forall i | 0 <= i < |men| ensures IsLower(bm[i]) {
      LowerIdempotent(men[i]);
    }
    forall i | 0 <= i < |women| ensures IsLower(bw[i]) {
      LowerIdempotent(women[i]);
    }
    BalancedAreLower(bm, |men|, "man");
    BalancedAreLower(bw, |women|, "woman");
    store := new ConstraintStore.Init(bm, bw);
    InitialResolved(bm, bw);
    ghost var s0 := store.Snapshot();
    store.UpdateTruthBooths(booths);
    ApplyBoothsPreservesResolved(s0, booths);
    ghost var s1 := store.Snapshot();
    adjusted := store.UpdateCeremonies(ceremonies);
    ApplyCeremoniesPreservesResolved(s1, ceremonies);
    store.Normalize(bm, bw);
  }
}
