/** The Monte Carlo construction of matchings: men with a confirmed match keep
    it, every other man draws a distinct woman from the unclaimed ones, and the
    pairs of each matching are tallied. The random draw is any woman the weighted
    choice could return; its distribution is not modelled. */
module MonteCarlo {
  import opened Names
  import opened Seqs
  import opened Season

  // ---------------------------------------------------------------------
  // Confirmed matches and the split of the men
  // ---------------------------------------------------------------------

  /** The first woman of the list whose cell with the man is a confirmed match. */
  function FirstSure(probs: map<Pair, real>, fixed: map<Pair, bool>, man: string, women: seq<string>): (r: Option<string>)
    ensures r.None? <==> forall w :: w in women ==> !IsSure(probs, fixed, (man, w))
    ensures r.Some? ==> r.value in women && IsSure(probs, fixed, (man, r.value))
  {
    if women == [] then None
    else if IsSure(probs, fixed, (man, women[0])) then Some(women[0])
    else FirstSure(probs, fixed, man, women[1..])
  }

  /** No confirmed match of the man comes before the one `FirstSure` returns. */
  lemma {:induction false} FirstSureIsFirst(probs: map<Pair, real>, fixed: map<Pair, bool>, man: string, women: seq<string>, j: nat)
    requires j < |women| && IsSure(probs, fixed, (man, women[j]))
    ensures FirstSure(probs, fixed, man, women).Some?
    ensures FirstSure(probs, fixed, man, women).value in women[..j + 1]
  {
    if !IsSure(probs, fixed, (man, women[0])) {
      FirstSureIsFirst(probs, fixed, man, women[1..], j - 1);
      assert women[1..][..j] == women[1..j + 1];
    }
  }

  /** `fixed_pairs`: every man with a confirmed match, mapped to his first one. */
  function FixedPairs(probs: map<Pair, real>, fixed: map<Pair, bool>, men: seq<string>, women: seq<string>): (r: map<string, string>)
    ensures forall m :: m in r <==> m in men && FirstSure(probs, fixed, m, women).Some?
    ensures forall m :: m in r ==> Some(r[m]) == FirstSure(probs, fixed, m, women)
  {
    if men == [] then map[]
    else
      var prev := FixedPairs(probs, fixed, men[..|men| - 1], women);
      var man := men[|men| - 1];
      match FirstSure(probs, fixed, man, women)
      case Some(w) => prev[man := w]
      case None => prev
  }

  /** `remaining_men`: the men without a confirmed match, in list order. */
  function Unresolved(probs: map<Pair, real>, fixed: map<Pair, bool>, men: seq<string>, women: seq<string>): (r: seq<string>)
    ensures forall m :: m in r <==> m in men && FirstSure(probs, fixed, m, women).None?
  {
    if men == [] then []
    else
      var prev := Unresolved(probs, fixed, men[..|men| - 1], women);
      var man := men[|men| - 1];
      if FirstSure(probs, fixed, man, women).None? then prev + [man] else prev
  }

  /** Every man lands in exactly one of `fixed_pairs` and `remaining_men`. */
  lemma SplitPartitions(probs: map<Pair, real>, fixed: map<Pair, bool>, men: seq<string>, women: seq<string>, m: string)
    requires m in men
    ensures m in FixedPairs(probs, fixed, men, women) <==> m !in Unresolved(probs, fixed, men, women)
  {
  }

  /** The loop that splits the men: a man with a confirmed match goes to
      `fixedPairs`, any other man to `remainingMen`. */
  method SplitFixed(probs: map<Pair, real>, fixed: map<Pair, bool>, men: seq<string>, women: seq<string>)
    returns (fixedPairs: map<string, string>, remainingMen: seq<string>)
    ensures fixedPairs == FixedPairs(probs, fixed, men, women)
    ensures remainingMen == Unresolved(probs, fixed, men, women)
  {
    fixedPairs := map[];
    remainingMen := [];
    for i := 0 to |men|
      invariant fixedPairs == FixedPairs(probs, fixed, men[..i], women)
      invariant remainingMen == Unresolved(probs, fixed, men[..i], women)
    {
      var man := men[i];
      var matchFound, partner := ScanForMatch(probs, fixed, man, women);
      SplitNext(probs, fixed, men, women, i);
      if matchFound {
        fixedPairs := fixedPairs[man := partner];
      } else {
        remainingMen := remainingMen + [man];
      }
    }
    assert men[..|men|] == men;
  }

  /** One more man: he joins the fixed pairs or the remaining men. */
  lemma SplitNext(probs: map<Pair, real>, fixed: map<Pair, bool>, men: seq<string>, women: seq<string>, i: nat)
    requires i < |men|
    ensures var first := FirstSure(probs, fixed, men[i], women);
            && FixedPairs(probs, fixed, men[..i + 1], women)
                 == (if first.Some? then FixedPairs(probs, fixed, men[..i], women)[men[i] := first.value]
                     else FixedPairs(probs, fixed, men[..i], women))
            && Unresolved(probs, fixed, men[..i + 1], women)
                 == Unresolved(probs, fixed, men[..i], women) + (if first.Some? then [] else [men[i]])
  {
    PrefixOfPrefix(men, i);
    FixedPairsLast(probs, fixed, men[..i + 1], women);
    UnresolvedLast(probs, fixed, men[..i + 1], women);
  }

  lemma FixedPairsLast(probs: map<Pair, real>, fixed: map<Pair, bool>, men: seq<string>, women: seq<string>)
    requires men != []
    ensures var first, prev := FirstSure(probs, fixed, men[|men| - 1], women), FixedPairs(probs, fixed, men[..|men| - 1], women);
            FixedPairs(probs, fixed, men, women) == if first.Some? then prev[men[|men| - 1] := first.value] else prev
  {
  }

  lemma UnresolvedLast(probs: map<Pair, real>, fixed: map<Pair, bool>, men: seq<string>, women: seq<string>)
    requires men != []
    ensures var first := FirstSure(probs, fixed, men[|men| - 1], women);
            Unresolved(probs, fixed, men, women)
              == Unresolved(probs, fixed, men[..|men| - 1], women) + (if first.Some? then [] else [men[|men| - 1]])
  {
  }

  /** The scan of the women for one man, which stops at his first confirmed match. */
  method ScanForMatch(probs: map<Pair, real>, fixed: map<Pair, bool>, man: string, women: seq<string>)
    returns (matchFound: bool, partner: string)
    ensures matchFound <==> FirstSure(probs, fixed, man, women).Some?
    ensures matchFound ==> FirstSure(probs, fixed, man, women) == Some(partner)
  {
    matchFound, partner := false, "";
    var j := 0;
    while j < |women|
      invariant 0 <= j <= |women|
      invariant FirstSure(probs, fixed, man, women) == FirstSure(probs, fixed, man, women[j..])
      invariant !matchFound
    {
      var w := women[j];
      if (man, w) in fixed && fixed[(man, w)] && (man, w) in probs && probs[(man, w)] == 1.0 {
        matchFound, partner := true, w;
        break;
      }
      assert women[j..][1..] == women[j + 1..];
      j := j + 1;
    }
  }

  // ---------------------------------------------------------------------
  // The pool of unclaimed women and the draw
  // ---------------------------------------------------------------------

  /** `remaining_women`: the women, in list order, that no fixed pair claims. */
  function RemainingWomen(women: seq<string>, fixedPairs: map<string, string>): (r: seq<string>)
    ensures forall w :: multiset(r)[w] == if w in fixedPairs.Values then 0 else multiset(women)[w]
  {
    if women == [] then []
    else
      var init := women[..|women| - 1];
      var w := women[|women| - 1];
      assert women == init + [w];
      RemainingWomen(init, fixedPairs) + (if w in fixedPairs.Values then [] else [w])
  }

  /** The pool holds no claimed woman, and only women of the list. */
  lemma RemainingWomenMembers(women: seq<string>, fixedPairs: map<string, string>)
    ensures forall w :: w in RemainingWomen(women, fixedPairs) <==> w in women && w !in fixedPairs.Values
    ensures NoDups(women) ==> NoDups(RemainingWomen(women, fixedPairs))
  {
    var r := RemainingWomen(women, fixedPairs);
    forall w ensures w in r <==> w in women && w !in fixedPairs.Values {
      assert w in r <==> multiset(r)[w] > 0;
      assert w in women <==> multiset(women)[w] > 0;
    }
    if NoDups(women) {
      assert multiset(r) <= multiset(women);
      SubMultisetNoDups(r, women);
    }
  }

  /** `list.remove(x)`: the first occurrence of x taken out. */
  function RemoveFirst(s: seq<string>, x: string): (r: seq<string>)
    requires x in s
    ensures |r| == |s| - 1
    ensures multiset(r) == multiset(s) - multiset{x}
  {
    if s[0] == x then
      MultisetHeadTail(s);
      s[1..]
    else
      MultisetHeadTail(s);
      var rest := RemoveFirst(s[1..], x);
      assert multiset([s[0]] + rest) == multiset{s[0]} + multiset(rest);
      [s[0]] + rest
  }

  /** The pool after the women of `drawn` are taken out one after the other. */
  function PoolAfter(pool: seq<string>, drawn: seq<string>): seq<string> {
    if drawn == [] then pool
    else
      var before := PoolAfter(pool, drawn[..|drawn| - 1]);
      var x := drawn[|drawn| - 1];
      if x in before then RemoveFirst(before, x) else before
  }

  /** The man's weights over the pool, as `probs.sum()` adds them. */
  function WeightSum(probs: map<Pair, real>, man: string, pool: seq<string>): real
    requires forall w :: w in pool ==> (man, w) in probs
  {
    if pool == [] then 0.0
    else WeightSum(probs, man, pool[..|pool| - 1]) + probs[(man, pool[|pool| - 1])]
  }

  /** Every weight of the man over the pool is at least 0. */
  predicate NonNegative(probs: map<Pair, real>, man: string, pool: seq<string>) {
    forall w :: w in pool ==> (man, w) in probs && probs[(man, w)] >= 0.0
  }

  /** Non-negative weights sum to 0 exactly when every one of them is 0. */
  lemma {:induction false} ZeroSumIffAllZero(probs: map<Pair, real>, man: string, pool: seq<string>)
    requires NonNegative(probs, man, pool)
    ensures WeightSum(probs, man, pool) >= 0.0
    ensures WeightSum(probs, man, pool) == 0.0 <==> forall w :: w in pool ==> probs[(man, w)] == 0.0
  {
    if pool != [] {
      var init := pool[..|pool| - 1];
      assert forall w :: w in init ==> w in pool;
      ZeroSumIffAllZero(probs, man, init);
      assert forall w :: w in pool ==> w in init || w == pool[|pool| - 1];
    }
  }

  /** A woman `np.random.choice` can return: one of the pool with a positive
      weight, or any of the pool when the weights sum to 0 (the uniform fallback).
      Every woman of the pool must have a weight for the man. */
  predicate CanDraw(probs: map<Pair, real>, man: string, pool: seq<string>, w: string) {
    && w in pool
    && (forall x :: x in pool ==> (man, x) in probs)
    && (WeightSum(probs, man, pool) == 0.0 || probs[(man, w)] > 0.0)
  }

  /** With non-negative weights, a non-empty pool always offers a woman to draw. */
  lemma DrawPossible(probs: map<Pair, real>, man: string, pool: seq<string>)
    requires pool != [] && NonNegative(probs, man, pool)
    ensures exists w :: CanDraw(probs, man, pool, w)
  {
    ZeroSumIffAllZero(probs, man, pool);
    if WeightSum(probs, man, pool) == 0.0 {
      assert CanDraw(probs, man, pool, pool[0]);
    } else {
      var w :| w in pool && probs[(man, w)] != 0.0;
      assert CanDraw(probs, man, pool, w);
    }
  }

  // ---------------------------------------------------------------------
  // One iteration
  // ---------------------------------------------------------------------

  /** The pool side of an iteration after |drawn| draws: `available` is the
      pool with the draws taken out, and each draw was a possible choice of the
      man at that turn from the pool left at that turn. */
  ghost predicate PoolState(probs: map<Pair, real>, remainingMen: seq<string>, pool0: seq<string>,
                            available: seq<string>, drawn: seq<string>) {
    && |drawn| <= |remainingMen| && |available| == |pool0| - |drawn|
    && available == PoolAfter(pool0, drawn)
    && multiset(available) + multiset(drawn) == multiset(pool0)
    && (forall k :: 0 <= k < |drawn| ==> CanDraw(probs, remainingMen[k], PoolAfter(pool0, drawn[..k]), drawn[k]))
  }

  /** The matching side of an iteration after |drawn| draws: each man drawn
      for holds one of the draws (a distinct one when the pool has no
      duplicates), and every other man keeps his fixed partner. */
  ghost predicate MatchState(fixedPairs: map<string, string>, remainingMen: seq<string>, pool0: seq<string>,
                             matching: map<string, string>, drawn: seq<string>)
    requires |drawn| <= |remainingMen|
  {
    && matching.Keys == fixedPairs.Keys + (set m | m in remainingMen[..|drawn|])
    && (forall m :: m in fixedPairs && m !in remainingMen[..|drawn|] ==> matching[m] == fixedPairs[m])
    && (forall m :: m in remainingMen[..|drawn|] ==> matching[m] in drawn)
    && (NoDups(pool0) ==> forall m, m' :: m in remainingMen[..|drawn|] && m' in remainingMen[..|drawn|] && m != m' ==> matching[m] != matching[m'])
  }

  lemma DrawingStart(probs: map<Pair, real>, fixedPairs: map<string, string>, remainingMen: seq<string>, pool0: seq<string>)
    requires |pool0| >= |remainingMen|
    ensures PoolState(probs, remainingMen, pool0, pool0, [])
    ensures MatchState(fixedPairs, remainingMen, pool0, fixedPairs, [])
  {
    assert remainingMen[..0] == [];
  }

  /** The next remaining man draws a possible choice from the women left. */
  lemma PoolStep(probs: map<Pair, real>, remainingMen: seq<string>, pool0: seq<string>,
                 available: seq<string>, drawn: seq<string>, chosen: string)
    requires PoolState(probs, remainingMen, pool0, available, drawn)
    requires |drawn| < |remainingMen|
    requires CanDraw(probs, remainingMen[|drawn|], available, chosen)
    ensures PoolState(probs, remainingMen, pool0, RemoveFirst(available, chosen), drawn + [chosen])
  {
    var i := |drawn|;
    var d := drawn + [chosen];
    assert d[..i] == drawn;
    forall k | 0 <= k < i ensures CanDraw(probs, remainingMen[k], PoolAfter(pool0, d[..k]), d[k]) {
      assert d[..k] == drawn[..k];
    }
  }

  /** The man who draws is paired with his draw, which no earlier man holds
      when the pool has no duplicates. */
  lemma MatchStep(fixedPairs: map<string, string>, remainingMen: seq<string>, pool0: seq<string>,
                  matching: map<string, string>, drawn: seq<string>, chosen: string)
    requires |drawn| < |remainingMen|
    requires MatchState(fixedPairs, remainingMen, pool0, matching, drawn)
    requires NoDups(pool0) ==> chosen !in drawn
    ensures MatchState(fixedPairs, remainingMen, pool0, matching[remainingMen[|drawn|] := chosen], drawn + [chosen])
  {
    PrefixNext(remainingMen, |drawn|);
  }

  /** One iteration of the simulation: a copy of the fixed pairs, and for each
      remaining man in order a woman drawn from what is left of the pool.
      `drawn` records the draws in order. */
  method SampleIteration(probs: map<Pair, real>, fixedPairs: map<string, string>, remainingMen: seq<string>, pool0: seq<string>)
    returns (matching: map<string, string>, ghost drawn: seq<string>)
    requires |pool0| >= |remainingMen|
    requires forall m :: m in remainingMen ==> NonNegative(probs, m, pool0)
    ensures matching.Keys == fixedPairs.Keys + (set m | m in remainingMen)
    ensures forall m :: m in fixedPairs && m !in remainingMen ==> matching[m] == fixedPairs[m]
    ensures forall m :: m in remainingMen ==> matching[m] in pool0 && matching[m] in drawn
    ensures NoDups(pool0) ==> forall m, m' :: m in remainingMen && m' in remainingMen && m != m' ==> matching[m] != matching[m']
    ensures |drawn| == |remainingMen|
    ensures NoDups(remainingMen) ==> forall k :: 0 <= k < |remainingMen| ==> matching[remainingMen[k]] == drawn[k]
    ensures forall k :: 0 <= k < |drawn| ==> CanDraw(probs, remainingMen[k], PoolAfter(pool0, drawn[..k]), drawn[k])
  {
    matching := fixedPairs;
    var available := pool0;
    drawn := [];
    DrawingStart(probs, fixedPairs, remainingMen, pool0);
    for i := 0 to |remainingMen|
      invariant |drawn| == i
      invariant PoolState(probs, remainingMen, pool0, available, drawn)
      invariant MatchState(fixedPairs, remainingMen, pool0, matching, drawn)
      invariant NoDups(remainingMen) ==> forall k :: 0 <= k < i ==> matching[remainingMen[k]] == drawn[k]
    {
      var man := remainingMen[i];
      AvailableNonNegative(probs, man, pool0, available, drawn);
      DrawPossible(probs, man, available);
      var chosen :| CanDraw(probs, man, available, chosen);
      DrawnIsFresh(pool0, available, drawn, chosen);
      PoolStep(probs, remainingMen, pool0, available, drawn, chosen);
      MatchStep(fixedPairs, remainingMen, pool0, matching, drawn, chosen);
      matching := matching[man := chosen];
      available := RemoveFirst(available, chosen);
      drawn := drawn + [chosen];
    }
    assert remainingMen[..|remainingMen|] == remainingMen;
    DrawnFromPool(pool0, available, drawn);
  }

  /** Every woman drawn came from the pool. */
  lemma DrawnFromPool(pool0: seq<string>, available: seq<string>, drawn: seq<string>)
    requires multiset(available) + multiset(drawn) == multiset(pool0)
    ensures forall w :: w in drawn ==> w in pool0
  {
    forall w | w in drawn ensures w in pool0 {
      assert w in multiset(drawn);
      assert w in multiset(pool0);
    }
  }

  /** What is left of the pool still has non-negative weights for the man. */
  lemma AvailableNonNegative(probs: map<Pair, real>, man: string, pool0: seq<string>, available: seq<string>, drawn: seq<string>)
    requires NonNegative(probs, man, pool0)
    requires multiset(available) + multiset(drawn) == multiset(pool0)
    ensures NonNegative(probs, man, available)
  {
    forall w | w in available ensures w in pool0 {
      assert w in multiset(pool0);
    }
  }

  /** From a pool without duplicates, a woman still available was not drawn before. */
  lemma DrawnIsFresh(pool0: seq<string>, available: seq<string>, drawn: seq<string>, chosen: string)
    requires multiset(available) + multiset(drawn) == multiset(pool0)
    requires chosen in available
    ensures NoDups(pool0) ==> chosen !in drawn
  {
    if NoDups(pool0) {
      NoDupsMultiplicity(pool0, chosen);
      assert multiset(available)[chosen] >= 1;
      assert multiset(drawn)[chosen] == 0;
    }
  }

  // ---------------------------------------------------------------------
  // Counting
  // ---------------------------------------------------------------------

  /** The counts with one added to the cell of each pair of the matching. */
  function Tallied(counts: map<Pair, nat>, matching: map<string, string>): (r: map<Pair, nat>)
    ensures r.Keys == counts.Keys
  {
    map k | k in counts :: counts[k] + (if k.0 in matching && matching[k.0] == k.1 then 1 else 0)
  }

  /** `for man, woman in matching.items(): simulation_counts[(man, woman)] += 1`. */
  method Tally(counts: map<Pair, nat>, matching: map<string, string>) returns (result: map<Pair, nat>)
    requires forall m :: m in matching ==> (m, matching[m]) in counts
    ensures result == Tallied(counts, matching)
  {
    result := counts;
    var rest := matching.Keys;
    while rest != {}
      invariant rest <= matching.Keys
      invariant result.Keys == counts.Keys
      invariant forall k :: k in counts ==>
                  result[k] == counts[k] + (if k.0 in matching && k.0 !in rest && matching[k.0] == k.1 then 1 else 0)
      decreases |rest|
    {
      var man :| man in rest;
      var key := (man, matching[man]);
      result := result[key := result[key] + 1];
      rest := rest - {man};
    }
  }

  /** A man's counts added up over a list of women. */
  function CountRow(counts: map<Pair, nat>, man: string, women: seq<string>): nat {
    if women == [] then 0
    else
      var w := women[|women| - 1];
      CountRow(counts, man, women[..|women| - 1]) + (if (man, w) in counts then counts[(man, w)] else 0)
  }

  /** Adding one to a single cell of the man's row, over women without
      duplicates, adds one to the row's sum when that woman is listed. */
  lemma {:induction false} CountRowBump(c: map<Pair, nat>, c2: map<Pair, nat>, man: string, women: seq<string>, v: string)
    requires NoDups(women)
    requires forall w :: w in women ==> (man, w) in c && (man, w) in c2 && c2[(man, w)] == c[(man, w)] + (if w == v then 1 else 0)
    ensures CountRow(c2, man, women) == CountRow(c, man, women) + (if v in women then 1 else 0)
  {
    if women != [] {
      var init := women[..|women| - 1];
      assert NoDups(init);
      assert forall w :: w in init ==> w in women;
      CountRowBump(c, c2, man, init, v);
      assert women == init + [women[|women| - 1]];
      assert women[|women| - 1] !in init;
    }
  }

  /** A tally adds exactly one to the row of every man of the matching. */
  lemma TalliedRow(counts: map<Pair, nat>, matching: map<string, string>, man: string, women: seq<string>)
    requires NoDups(women) && man in matching && matching[man] in women
    requires forall w :: w in women ==> (man, w) in counts
    ensures CountRow(Tallied(counts, matching), man, women) == CountRow(counts, man, women) + 1
  {
    CountRowBump(counts, Tallied(counts, matching), man, women, matching[man]);
  }

  // ---------------------------------------------------------------------
  // The simulation
  // ---------------------------------------------------------------------

  /** The simulation's state after some iterations: every men x women cell is
      counted; a fixed man's row counts only his confirmed match, once per
      iteration; a remaining man never gets a fixed man's partner; and, over
      women without duplicates, every man's row adds up to the iterations run. */
  ghost predicate CountsInvariant(counts: map<Pair, nat>, men: seq<string>, women: seq<string>,
                                  fixedPairs: map<string, string>, iterations: nat) {
    && counts.Keys == Cells(men, women)
    && (forall k :: k in counts && k.0 in fixedPairs ==> counts[k] == if k.1 == fixedPairs[k.0] then iterations else 0)
    && (forall k :: k in counts && k.0 !in fixedPairs && k.1 in fixedPairs.Values ==> counts[k] == 0)
    && (NoDups(women) ==> forall m :: m in men ==> CountRow(counts, m, women) == iterations)
  }

  /** What the draws of an iteration need: at least as many unclaimed women as
      remaining men, and non-negative weights for every remaining man over them. */
  ghost predicate Samplable(probs: map<Pair, real>, fixed: map<Pair, bool>, men: seq<string>, women: seq<string>) {
    var pool := RemainingWomen(women, FixedPairs(probs, fixed, men, women));
    var rm := Unresolved(probs, fixed, men, women);
    |pool| >= |rm| && forall m :: m in rm ==> NonNegative(probs, m, pool)
  }

  /** `monte_carlo_simulation`: `n` iterations, then every count divided by `n`.
      Returns the frequencies and the counts they come from. */
  method MonteCarloSimulation(probs: map<Pair, real>, fixed: map<Pair, bool>,
                              participantMen: seq<string>, participantWomen: seq<string>, n: int)
    returns (freq: map<Pair, real>, counts: map<Pair, nat>)
    requires n == 0 ==> participantMen == [] || participantWomen == []
    requires n > 0 ==> Samplable(probs, fixed, LowerAll(participantMen), LowerAll(participantWomen))
    ensures var men, women := LowerAll(participantMen), LowerAll(participantWomen);
            CountsInvariant(counts, men, women, FixedPairs(probs, fixed, men, women), Max(n, 0))
    ensures freq.Keys == counts.Keys
    ensures forall k :: k in freq ==> freq[k] == (counts[k] as real) / (n as real)
  {
    var men := LowerAll(participantMen);
    var women := LowerAll(participantWomen);
    var fixedPairs, remainingMen := SplitFixed(probs, fixed, men, women);
    var remainingWomen := RemainingWomen(women, fixedPairs);
    SplitFacts(probs, fixed, men, women);
    var simulationCounts := RunIterations(probs, fixed, men, women, fixedPairs, remainingMen, remainingWomen, n);
    CountedCellsNeedIterations(simulationCounts, men, women, n);
    freq := Frequencies(simulationCounts, n);
    counts := simulationCounts;
  }

  /** `{k: v / n_iterations for k, v in simulation_counts.items()}`. */
  function Frequencies(counts: map<Pair, nat>, n: int): (r: map<Pair, real>)
    requires counts != map[] ==> n != 0
    ensures r.Keys == counts.Keys
    ensures forall k :: k in r ==> r[k] == (counts[k] as real) / (n as real)
  {
    map k | k in counts :: (counts[k] as real) / (n as real)
  }

  /** A cell exists only when both lists are non-empty, so then n is not 0. */
  lemma CountedCellsNeedIterations(counts: map<Pair, nat>, men: seq<string>, women: seq<string>, n: int)
    requires counts.Keys == Cells(men, women)
    requires n == 0 ==> men == [] || women == []
    ensures counts != map[] ==> n != 0
  {
    if counts != map[] {
      var k :| k in counts;
      assert k.0 in men && k.1 in women;
    }
  }

  /** The `n` iterations of the simulation, from counts at 0 for every cell. */
  method RunIterations(probs: map<Pair, real>, fixed: map<Pair, bool>, men: seq<string>, women: seq<string>,
                       fixedPairs: map<string, string>, remainingMen: seq<string>, remainingWomen: seq<string>, n: int)
    returns (counts: map<Pair, nat>)
    requires SplitShape(men, women, fixedPairs, remainingMen, remainingWomen)
    requires n > 0 ==> |remainingWomen| >= |remainingMen| && forall m :: m in remainingMen ==> NonNegative(probs, m, remainingWomen)
    ensures CountsInvariant(counts, men, women, fixedPairs, Max(n, 0))
  {
    counts := map k | k in Cells(men, women) :: 0;
    InitialCountsInvariant(men, women, fixedPairs);
    var it := 0;
    while it < n
      invariant 0 <= it <= Max(n, 0)
      invariant CountsInvariant(counts, men, women, fixedPairs, it)
    {
      var matching, drawn := SampleIteration(probs, fixedPairs, remainingMen, remainingWomen);
      IterationStep(men, women, fixedPairs, remainingMen, remainingWomen, counts, matching, it);
      counts := Tally(counts, matching);
      it := it + 1;
    }
  }

  /** Tallying the matching of one iteration counts one more iteration. */
  lemma IterationStep(men: seq<string>, women: seq<string>, fixedPairs: map<string, string>,
                      remainingMen: seq<string>, remainingWomen: seq<string>,
                      counts: map<Pair, nat>, matching: map<string, string>, iterations: nat)
    requires SplitShape(men, women, fixedPairs, remainingMen, remainingWomen)
    requires CountsInvariant(counts, men, women, fixedPairs, iterations)
    requires matching.Keys == fixedPairs.Keys + (set m | m in remainingMen)
    requires forall m :: m in fixedPairs && m !in remainingMen ==> matching[m] == fixedPairs[m]
    requires forall m :: m in remainingMen ==> matching[m] in remainingWomen
    ensures forall m :: m in matching ==> (m, matching[m]) in counts
    ensures CountsInvariant(Tallied(counts, matching), men, women, fixedPairs, iterations + 1)
  {
    MatchingCells(men, women, fixedPairs, remainingMen, remainingWomen, matching);
    TallyKeepsInvariant(counts, men, women, fixedPairs, remainingMen, remainingWomen, matching, iterations);
  }

  /** The counts start at 0 for every cell, which is the state after no iteration. */
  lemma InitialCountsInvariant(men: seq<string>, women: seq<string>, fixedPairs: map<string, string>)
    ensures CountsInvariant(map k | k in Cells(men, women) :: 0, men, women, fixedPairs, 0)
  {
    var c: map<Pair, nat> := map k | k in Cells(men, women) :: 0;
    forall m | m in men ensures CountRow(c, m, women) == 0 {
      CountRowZero(c, m, women);
    }
  }

  lemma {:induction false} CountRowZero(c: map<Pair, nat>, man: string, women: seq<string>)
    requires forall w :: w in women && (man, w) in c ==> c[(man, w)] == 0
    ensures CountRow(c, man, women) == 0
  {
    if women != [] {
      assert forall w :: w in women[..|women| - 1] ==> w in women;
      CountRowZero(c, man, women[..|women| - 1]);
    }
  }

  /** How a split divides the men and the women: every man is fixed or
      remaining and not both, fixed partners are listed women, and the pool
      holds listed women that no fixed man holds. */
  ghost predicate SplitShape(men: seq<string>, women: seq<string>, fixedPairs: map<string, string>,
                             remainingMen: seq<string>, remainingWomen: seq<string>) {
    && (forall m :: m in men <==> m in fixedPairs || m in remainingMen)
    && (forall m :: m in fixedPairs ==> m !in remainingMen && fixedPairs[m] in women)
    && (forall w :: w in remainingWomen ==> w in women && w !in fixedPairs.Values)
  }

  /** The split of the source has that shape. */
  lemma SplitFacts(probs: map<Pair, real>, fixed: map<Pair, bool>, men: seq<string>, women: seq<string>)
    ensures var fp := FixedPairs(probs, fixed, men, women);
            SplitShape(men, women, fp, Unresolved(probs, fixed, men, women), RemainingWomen(women, fp))
  {
    RemainingWomenMembers(women, FixedPairs(probs, fixed, men, women));
  }

  /** The matching of an iteration covers every man, with a woman of the list,
      and gives the remaining men only unclaimed women. */
  lemma MatchingCells(men: seq<string>, women: seq<string>, fixedPairs: map<string, string>,
                      remainingMen: seq<string>, remainingWomen: seq<string>, matching: map<string, string>)
    requires SplitShape(men, women, fixedPairs, remainingMen, remainingWomen)
    requires matching.Keys == fixedPairs.Keys + (set m | m in remainingMen)
    requires forall m :: m in fixedPairs && m !in remainingMen ==> matching[m] == fixedPairs[m]
    requires forall m :: m in remainingMen ==> matching[m] in remainingWomen
    ensures matching.Keys == set m | m in men
    ensures forall m :: m in fixedPairs && m in matching ==> matching[m] == fixedPairs[m]
    ensures forall m :: m in matching ==> matching[m] in women
    ensures forall m :: m in matching && m !in fixedPairs ==> matching[m] !in fixedPairs.Values
  {
  }

  /** One iteration's tally keeps the invariant, with one more iteration counted. */
  lemma TallyKeepsInvariant(counts: map<Pair, nat>, men: seq<string>, women: seq<string>,
                            fixedPairs: map<string, string>, remainingMen: seq<string>, remainingWomen: seq<string>,
                            matching: map<string, string>, iterations: nat)
    requires CountsInvariant(counts, men, women, fixedPairs, iterations)
    requires matching.Keys == set m | m in men
    requires forall m :: m in fixedPairs && m in matching ==> matching[m] == fixedPairs[m]
    requires forall m :: m in matching ==> matching[m] in women
    requires forall m :: m in matching && m !in fixedPairs ==> matching[m] !in fixedPairs.Values
    ensures forall m :: m in matching ==> (m, matching[m]) in counts
    ensures CountsInvariant(Tallied(counts, matching), men, women, fixedPairs, iterations + 1)
  {
    var next := Tallied(counts, matching);
    forall k | k in next && k.0 !in fixedPairs && k.1 in fixedPairs.Values ensures next[k] == 0 {
      assert k.0 in matching;
    }
    forall k | k in next && k.0 in fixedPairs
      ensures next[k] == if k.1 == fixedPairs[k.0] then iterations + 1 else 0
    {
      assert k.0 in matching;
    }
    if NoDups(women) {
      forall m | m in men ensures CountRow(next, m, women) == iterations + 1 {
        TalliedRow(counts, matching, m, women);
      }
    }
  }

  /** With every man resolved, each confirmed pair is counted in every iteration
      and every other cell never; with n > 0 the frequencies are 1 and 0. */
  lemma FullyResolvedFrequencies(probs: map<Pair, real>, fixed: map<Pair, bool>, men: seq<string>, women: seq<string>,
                                 counts: map<Pair, nat>, freq: map<Pair, real>, n: int)
    requires n > 0
    requires Unresolved(probs, fixed, men, women) == []
    requires CountsInvariant(counts, men, women, FixedPairs(probs, fixed, men, women), n)
    requires freq.Keys == counts.Keys && forall k :: k in freq ==> freq[k] == (counts[k] as real) / (n as real)
    ensures forall k :: k in freq ==> freq[k] == if FirstSure(probs, fixed, k.0, women) == Some(k.1) then 1.0 else 0.0
  {
    var fp := FixedPairs(probs, fixed, men, women);
    forall k | k in freq ensures freq[k] == if FirstSure(probs, fixed, k.0, women) == Some(k.1) then 1.0 else 0.0 {
      assert k.0 in men;
      assert k.0 !in Unresolved(probs, fixed, men, women);
      assert k.0 in fp;
      var c := counts[k];
      assert c == if k.1 == fp[k.0] then n else 0;
      DivideCount(c, n);
    }
  }

  lemma DivideCount(c: nat, n: int)
    requires n > 0 && (c == n || c == 0)
    ensures (c as real) / (n as real) == if c == n then 1.0 else 0.0
  {
  }
}
