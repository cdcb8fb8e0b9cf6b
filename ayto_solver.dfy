/** The exhaustive solver: the three validity checks on a candidate pairing,
    the enumeration of candidates in the order `itertools` produces them,
    and the search that collects the first valid pairings. Names are compared
    exactly as given (no case folding). */
module AytoSolver {
  import opened Seqs
  import opened Season

  /** A candidate solution: each man mapped to one woman. */
  type Pairing = map<string, string>

  // ---------------------------------------------------------------------
  // Validity checks
  // ---------------------------------------------------------------------

  /** The booth's verdict agrees with the pairing. */
  predicate BoothHolds(p: Pairing, b: Booth) {
    (b.man in p && p[b.man] == b.woman) == b.isMatch
  }

  /** `is_valid_truth_booth`: stops at the first booth the pairing contradicts. */
  function IsValidTruthBooth(p: Pairing, booths: seq<Booth>): (ok: bool)
    ensures ok <==> forall i :: 0 <= i < |booths| ==> BoothHolds(p, booths[i])
  {
    if booths == [] then true
    else if !BoothHolds(p, booths[0]) then false
    else IsValidTruthBooth(p, booths[1..])
  }

  /** `respects_perfect_matches`: every confirmed booth's man is paired with its woman. */
  function RespectsPerfectMatches(p: Pairing, booths: seq<Booth>): (ok: bool)
    ensures ok <==> forall i :: 0 <= i < |booths| && booths[i].isMatch ==>
                       booths[i].man in p && p[booths[i].man] == booths[i].woman
  {
    if booths == [] then true
    else if booths[0].isMatch && !(booths[0].man in p && p[booths[0].man] == booths[0].woman) then false
    else RespectsPerfectMatches(p, booths[1..])
  }

  /** A pairing consistent with every booth respects the confirmed ones, so the
      second check never rejects a candidate the first one accepted. */
  lemma TruthBoothImpliesPerfectMatches(p: Pairing, booths: seq<Booth>)
    requires IsValidTruthBooth(p, booths)
    ensures RespectsPerfectMatches(p, booths)
  {
    forall i | 0 <= i < |booths| && booths[i].isMatch
      ensures booths[i].man in p && p[booths[i].man] == booths[i].woman
    {
      assert BoothHolds(p, booths[i]);
    }
  }

  /** The key under which a ceremony names the woman who sits out; the colon is
      part of the key. */
  const NoPairKey: string := "no_pair:"

  /** `ceremony.get("no_pair:", None)`. */
  function NoPair(c: Ceremony): Option<string> {
    if NoPairKey in c.labels then Some(c.labels[NoPairKey]) else None
  }

  /** The ceremony's pairs as a set. */
  function Expected(c: Ceremony): (r: set<Pair>)
    ensures forall k :: k in r <==> k in c.pairs
  {
    set i | 0 <= i < |c.pairs| :: c.pairs[i]
  }

  /** The men whose pair is seated at the ceremony with a woman who is not the
      one sitting out. */
  function ScoringMen(p: Pairing, c: Ceremony): set<string> {
    set m | m in p && (m, p[m]) in Expected(c) && NoPair(c) != Some(p[m])
  }

  /** `match_score`: the number of the pairing's pairs seated at the ceremony. */
  function MatchScore(p: Pairing, c: Ceremony): (r: nat)
    ensures r <= |p| && r <= |Expected(c)|
  {
    var s := ScoringMen(p, c);
    SubsetCard(s, p.Keys);
    ImageCard(p, s);
    SubsetCard(set m | m in s :: (m, p[m]), Expected(c));
    |s|
  }

  /** A subset is no larger than its superset. */
  lemma {:induction false} SubsetCard<T>(a: set<T>, b: set<T>)
    requires a <= b
    ensures |a| <= |b|
    decreases |b|
  {
    if a != {} {
      var x :| x in a;
      assert (a - {x}) <= (b - {x});
      SubsetCard(a - {x}, b - {x});
    }
  }

  /** Pairing each man of `s` with his woman loses no element. */
  lemma {:induction false} ImageCard(p: Pairing, s: set<string>)
    requires s <= p.Keys
    ensures |set m | m in s :: (m, p[m])| == |s|
    decreases |s|
  {
    if s != {} {
      var x :| x in s;
      var img := set m | m in s :: (m, p[m]);
      var img' := set m | m in s - {x} :: (m, p[m]);
      ImageCard(p, s - {x});
      assert img == img' + {(x, p[x])};
      assert (x, p[x]) !in img';
    }
  }

  /** The score is 0 exactly when no pair of the pairing is seated at the
      ceremony with a woman other than the one sitting out. */
  lemma MatchScoreZero(p: Pairing, c: Ceremony)
    ensures MatchScore(p, c) == 0 <==>
            forall m :: m in p && (m, p[m]) in c.pairs ==> NoPair(c) == Some(p[m])
  {
    if MatchScore(p, c) == 0 {
      assert ScoringMen(p, c) == {};
      forall m | m in p && (m, p[m]) in c.pairs ensures NoPair(c) == Some(p[m]) {
        assert (m, p[m]) in Expected(c);
        assert m !in ScoringMen(p, c);
      }
    } else {
      var m :| m in ScoringMen(p, c);
    }
  }

  /** When every pair of the pairing is seated and nobody sits out, the score
      is the size of the pairing. */
  lemma MatchScoreFull(p: Pairing, c: Ceremony)
    requires NoPair(c) == None
    requires forall m :: m in p ==> (m, p[m]) in c.pairs
    ensures MatchScore(p, c) == |p|
  {
    assert ScoringMen(p, c) == p.Keys;
  }

  /** `is_valid_ceremonies`: stops at the first ceremony whose score differs. */
  function IsValidCeremonies(p: Pairing, cs: seq<Ceremony>): (ok: bool)
    ensures ok <==> forall i :: 0 <= i < |cs| ==> MatchScore(p, cs[i]) == cs[i].score
  {
    if cs == [] then true
    else if MatchScore(p, cs[0]) != cs[0].score then false
    else IsValidCeremonies(p, cs[1..])
  }

  /** The three checks the search applies, in its order. */
  predicate IsValid(p: Pairing, booths: seq<Booth>, cs: seq<Ceremony>) {
    IsValidTruthBooth(p, booths) && RespectsPerfectMatches(p, booths) && IsValidCeremonies(p, cs)
  }

  // ---------------------------------------------------------------------
  // Candidates
  // ---------------------------------------------------------------------

  /** `dict(zip(men, ws))`: the shorter list bounds the pairs, and a later
      occurrence of a man overrides an earlier one. */
  function Zip(men: seq<string>, ws: seq<string>): (r: Pairing)
    ensures |ws| == |men| ==> r.Keys == set m | m in men
  {
    var n := if |men| < |ws| then |men| else |ws|;
    if n == 0 then map[] else Zip(men[..n - 1], ws[..n - 1])[men[n - 1] := ws[n - 1]]
  }

  /** Every man is mapped to one of the women given. */
  lemma {:induction false} ZipValues(men: seq<string>, ws: seq<string>)
    requires |ws| == |men|
    ensures forall m :: m in Zip(men, ws) ==> Zip(men, ws)[m] in ws
  {
    if men != [] {
      var n := |men| - 1;
      ZipValues(men[..n], ws[..n]);
      forall m | m in Zip(men, ws) ensures Zip(men, ws)[m] in ws {
        if m != men[n] {
          assert Zip(men, ws)[m] in ws[..n];
        }
      }
    }
  }

  /** With distinct men, each man is mapped to the woman at his own position. */
  lemma {:induction false} ZipAt(men: seq<string>, ws: seq<string>, i: nat)
    requires |ws| == |men| && NoDups(men) && i < |men|
    ensures Zip(men, ws)[men[i]] == ws[i]
  {
    var n := |men| - 1;
    if i < n {
      assert NoDups(men[..n]);
      ZipAt(men[..n], ws[..n], i);
    }
  }

  /** With distinct women, distinct men get distinct partners. */
  lemma {:induction false} ZipInjective(men: seq<string>, ws: seq<string>)
    requires |ws| == |men| && NoDups(ws)
    ensures forall m, m' :: m in Zip(men, ws) && m' in Zip(men, ws) && m != m' ==> Zip(men, ws)[m] != Zip(men, ws)[m']
  {
    if men != [] {
      var n := |men| - 1;
      var prev := Zip(men[..n], ws[..n]);
      assert NoDups(ws[..n]);
      ZipInjective(men[..n], ws[..n]);
      ZipValues(men[..n], ws[..n]);
      assert ws[n] !in ws[..n];
      forall m, m' | m in Zip(men, ws) && m' in Zip(men, ws) && m != m'
        ensures Zip(men, ws)[m] != Zip(men, ws)[m']
      {
        if m == men[n] {
          assert m' in prev;
        } else if m' == men[n] {
          assert m in prev;
        }
      }
    }
  }

  /** Each sequence of `ps` with `x` in front. */
  function Prefixed<T(==)>(x: T, ps: seq<seq<T>>): (r: seq<seq<T>>)
    ensures |r| == |ps| && forall i :: 0 <= i < |ps| ==> r[i] == [x] + ps[i]
  {
    seq(|ps|, i requires 0 <= i < |ps| => [x] + ps[i])
  }

  /** Putting x in front of selections of size k from s gives selections of size k + 1 from s and x. */
  lemma PrefixedMultisets<T>(x: T, ps: seq<seq<T>>, s: seq<T>, k: nat)
    requires forall c :: c in ps ==> |c| == k && multiset(c) <= multiset(s)
    ensures forall c :: c in Prefixed(x, ps) ==> |c| == k + 1 && multiset(c) <= multiset(s) + multiset{x}
  {
    forall c | c in Prefixed(x, ps) ensures |c| == k + 1 && multiset(c) <= multiset(s) + multiset{x} {
      var i :| 0 <= i < |ps| && Prefixed(x, ps)[i] == c;
      assert ps[i] in ps;
      assert multiset(c) == multiset{x} + multiset(ps[i]);
    }
  }

  /** Putting x in front of rearrangements of s gives rearrangements of s with x added. */
  lemma PrefixedPermutations<T>(x: T, ps: seq<seq<T>>, s: seq<T>)
    requires forall q :: q in ps ==> multiset(q) == multiset(s)
    ensures forall q :: q in Prefixed(x, ps) ==> multiset(q) == multiset(s) + multiset{x}
  {
    forall q | q in Prefixed(x, ps) ensures multiset(q) == multiset(s) + multiset{x} {
      var i :| 0 <= i < |ps| && Prefixed(x, ps)[i] == q;
      assert ps[i] in ps;
      assert multiset(q) == multiset{x} + multiset(ps[i]);
    }
  }

  /** `t` without its element at position i. */
  function Without<T(==)>(t: seq<T>, i: nat): (r: seq<T>)
    requires i < |t|
    ensures |r| == |t| - 1
    ensures multiset(r) + multiset{t[i]} == multiset(t)
  {
    assert t == t[..i] + [t[i]] + t[i + 1..];
    t[..i] + t[i + 1..]
  }

  /** `itertools.combinations(s, k)`: the k-element selections of positions of `s`,
      in lexicographic order of positions. */
  function Combinations<T(==)>(s: seq<T>, k: nat): (r: seq<seq<T>>)
    ensures r != [] ==> k <= |s|
    decreases |s|
  {
    if k == 0 then [[]]
    else if |s| < k then []
    else Prefixed(s[0], Combinations(s[1..], k - 1)) + Combinations(s[1..], k)
  }

  /** Each combination has k elements, all taken from `s`. */
  lemma {:induction false} CombinationsShape<T>(s: seq<T>, k: nat)
    ensures SizedFrom(Combinations(s, k), k, s)
    decreases |s|
  {
    if k > 0 && |s| >= k {
      CombinationsShape(s[1..], k - 1);
      CombinationsShape(s[1..], k);
      ShapeOfUnion(s, Combinations(s[1..], k - 1), Combinations(s[1..], k), k);
      CombinationsUnfold(s, k);
    }
  }

  /** Every selection of the list has k elements, all taken from `s`. */
  ghost predicate SizedFrom<T>(cs: seq<seq<T>>, k: nat, s: seq<T>) {
    forall c :: c in cs ==> |c| == k && multiset(c) <= multiset(s)
  }

  /** `itertools.permutations(t)`: every ordering of the positions of `t`, in
      lexicographic order of positions. */
  function Permutations<T(==)>(t: seq<T>): (r: seq<seq<T>>)
    ensures forall q :: q in r ==> multiset(q) == multiset(t)
    decreases |t|, |t| + 1
  {
    if t == [] then [[]] else PermsFrom(t, 0)
  }

  /** The permutations of `t` whose first element is taken from position i or later. */
  function PermsFrom<T(==)>(t: seq<T>, i: nat): (r: seq<seq<T>>)
    requires i <= |t|
    ensures forall q :: q in r ==> multiset(q) == multiset(t)
    decreases |t|, |t| - i
  {
    if i == |t| then []
    else
      PrefixedPermutations(t[i], Permutations(Without(t, i)), Without(t, i));
      Prefixed(t[i], Permutations(Without(t, i))) + PermsFrom(t, i + 1)
  }

  /** The permutations of each selection, one selection after the other. */
  function FlatPerms<T(==)>(cs: seq<seq<T>>): seq<seq<T>> {
    if cs == [] then [] else FlatPerms(cs[..|cs| - 1]) + Permutations(cs[|cs| - 1])
  }

  /** Every candidate the search tries, in its order. */
  function Candidates(women: seq<string>, n: nat): seq<seq<string>> {
    FlatPerms(Combinations(women, n))
  }

  /** The pairings of `cands` that pass the three checks, in order. */
  function Solutions(men: seq<string>, cands: seq<seq<string>>, booths: seq<Booth>, cs: seq<Ceremony>): seq<Pairing> {
    if cands == [] then []
    else
      var last := cands[|cands| - 1];
      Solutions(men, cands[..|cands| - 1], booths, cs)
        + (if IsValid(Zip(men, last), booths, cs) then [Zip(men, last)] else [])
  }

  /** Every valid pairing of the whole search space, in the order the search meets them. */
  function AllSolutions(men: seq<string>, women: seq<string>, booths: seq<Booth>, cs: seq<Ceremony>): seq<Pairing> {
    Solutions(men, Candidates(women, |men|), booths, cs)
  }

  /** The first n elements of s, or all of s when it is shorter. */
  function Take<T>(s: seq<T>, n: nat): (r: seq<T>)
    ensures |r| <= n && |r| <= |s| && r == s[..|r|]
    ensures |r| < n ==> r == s
  {
    if |s| <= n then s else s[..n]
  }

  // ---------------------------------------------------------------------
  // Facts about the candidates
  // ---------------------------------------------------------------------

  lemma {:induction false} FlatPermsAppend<T>(a: seq<seq<T>>, b: seq<seq<T>>)
    ensures FlatPerms(a + b) == FlatPerms(a) + FlatPerms(b)
    decreases |b|
  {
    if b == [] {
      assert a + b == a;
    } else {
      var n := |b| - 1;
      assert (a + b)[..|a + b| - 1] == a + b[..n];
      FlatPermsAppend(a, b[..n]);
    }
  }

  lemma {:induction false} SolutionsAppend(men: seq<string>, a: seq<seq<string>>, b: seq<seq<string>>, booths: seq<Booth>, cs: seq<Ceremony>)
    ensures Solutions(men, a + b, booths, cs) == Solutions(men, a, booths, cs) + Solutions(men, b, booths, cs)
    decreases |b|
  {
    if b == [] {
      assert a + b == a;
    } else {
      var n := |b| - 1;
      assert (a + b)[..|a + b| - 1] == a + b[..n];
      SolutionsAppend(men, a, b[..n], booths, cs);
    }
  }

  /** A candidate is drawn from `women`: it has one woman per man, and only women of the list. */
  lemma {:induction false} FlatPermsShape(cs: seq<seq<string>>, women: seq<string>, n: nat)
    requires forall c :: c in cs ==> |c| == n && multiset(c) <= multiset(women)
    ensures forall q :: q in FlatPerms(cs) ==> |q| == n && multiset(q) <= multiset(women)
  {
    if cs != [] {
      var init := cs[..|cs| - 1];
      FlatPermsShape(init, women, n);
      forall q | q in Permutations(cs[|cs| - 1]) ensures |q| == n {
        assert |multiset(q)| == |multiset(cs[|cs| - 1])|;
      }
    }
  }

  lemma CandidatesShape(women: seq<string>, n: nat)
    ensures forall q :: q in Candidates(women, n) ==> |q| == n && multiset(q) <= multiset(women)
  {
    CombinationsShape(women, n);
    FlatPermsShape(Combinations(women, n), women, n);
  }

  /** The pairing has the men as its domain and maps them to women of the list,
      pairwise distinct when the list has no duplicates. */
  predicate WellShaped(p: Pairing, men: seq<string>, women: seq<string>) {
    && p.Keys == (set m | m in men)
    && (forall m :: m in p ==> p[m] in women)
    && (NoDups(women) ==> forall m, m' :: m in p && m' in p && m != m' ==> p[m] != p[m'])
  }

  /** Zipping the men with a candidate drawn from the women gives a well-shaped pairing. */
  lemma ZipWellShaped(men: seq<string>, q: seq<string>, women: seq<string>)
    requires |q| == |men| && multiset(q) <= multiset(women)
    ensures WellShaped(Zip(men, q), men, women)
  {
    ZipValues(men, q);
    forall m | m in Zip(men, q) ensures Zip(men, q)[m] in women {
      assert Zip(men, q)[m] in multiset(q);
    }
    if NoDups(women) {
      SubMultisetNoDups(q, women);
      ZipInjective(men, q);
    }
  }

  /** Every pairing the search can accept passes the checks and is well shaped. */
  lemma {:induction false} SolutionsShape(men: seq<string>, cands: seq<seq<string>>, women: seq<string>, booths: seq<Booth>, cs: seq<Ceremony>)
    requires forall q :: q in cands ==> |q| == |men| && multiset(q) <= multiset(women)
    ensures forall p :: p in Solutions(men, cands, booths, cs) ==> IsValid(p, booths, cs) && WellShaped(p, men, women)
  {
    if cands != [] {
      var last := cands[|cands| - 1];
      SolutionsShape(men, cands[..|cands| - 1], women, booths, cs);
      ZipWellShaped(men, last, women);
    }
  }

  /** A search with more men than women has no candidate at all. */
  lemma MoreMenThanWomenNoSolution(men: seq<string>, women: seq<string>, booths: seq<Booth>, cs: seq<Ceremony>)
    requires |men| > |women|
    ensures AllSolutions(men, women, booths, cs) == []
  {
    assert Combinations(women, |men|) == [];
  }

  // ---------------------------------------------------------------------
  // Completeness of the enumeration
  // ---------------------------------------------------------------------

  /** The elements of `s` that lie in `chosen`, in the order of `s`. */
  function Select<T(==)>(s: seq<T>, chosen: set<T>): (r: seq<T>)
    ensures |r| <= |s|
  {
    if s == [] then []
    else if s[0] in chosen then [s[0]] + Select(s[1..], chosen)
    else Select(s[1..], chosen)
  }

  lemma {:induction false} SelectMembers<T>(s: seq<T>, chosen: set<T>)
    ensures forall x :: x in Select(s, chosen) <==> x in s && x in chosen
  {
    if s != [] {
      SelectMembers(s[1..], chosen);
    }
  }

  lemma {:induction false} SelectNoDups<T>(s: seq<T>, chosen: set<T>)
    requires NoDups(s)
    ensures NoDups(Select(s, chosen))
  {
    if s != [] {
      assert NoDups(s[1..]);
      SelectNoDups(s[1..], chosen);
      SelectMembers(s[1..], chosen);
      assert s[0] !in s[1..];
    }
  }

  /** Every order-preserving selection of `s` is among its combinations of that size. */
  lemma {:induction false} SelectIsCombination<T>(s: seq<T>, chosen: set<T>)
    ensures Select(s, chosen) in Combinations(s, |Select(s, chosen)|)
  {
    var r := Select(s, chosen);
    if s != [] && |r| > 0 {
      var tail := Select(s[1..], chosen);
      SelectIsCombination(s[1..], chosen);
      CombinationsUnfold(s, |r|);
      var with, without := Prefixed(s[0], Combinations(s[1..], |r| - 1)), Combinations(s[1..], |r|);
      if s[0] in chosen {
        assert r == [s[0]] + tail && r[1..] == tail;
        PrefixedContains(s[0], Combinations(s[1..], |tail|), r);
        assert r in with;
      } else {
        assert r == tail;
        assert r in without;
      }
    }
  }

  lemma CombinationsUnfold<T>(s: seq<T>, k: nat)
    requires 0 < k <= |s|
    ensures Combinations(s, k) == Prefixed(s[0], Combinations(s[1..], k - 1)) + Combinations(s[1..], k)
  {
  }

  /** `q` is the i-th element of `Prefixed(t[i], Permutations(Without(t, i)))` for some
      position: then it is a permutation of `t` the enumeration produces from position j <= i on. */
  lemma {:induction false} PermsFromContains<T>(t: seq<T>, i: nat, j: nat, q: seq<T>)
    requires j <= i < |t| && q in Prefixed(t[i], Permutations(Without(t, i)))
    ensures q in PermsFrom(t, j)
    decreases i - j
  {
    if j < i {
      PermsFromContains(t, i, j + 1, q);
    }
  }

  /** Every rearrangement of `t` is enumerated. */
  lemma {:induction false} PermutationsComplete<T>(t: seq<T>, q: seq<T>)
    requires multiset(q) == multiset(t)
    ensures q in Permutations(t)
    decreases |t|
  {
    assert |q| == |multiset(q)| == |t|;
    if t != [] {
      assert q[0] in multiset(t);
      var i :| 0 <= i < |t| && t[i] == q[0];
      WithoutHead(q, t, i);
      PermutationsComplete(Without(t, i), q[1..]);
      PrefixedContains(t[i], Permutations(Without(t, i)), q);
      PermsFromContains(t, i, 0, q);
    }
  }

  /** Taking the same element off two rearrangements of each other leaves rearrangements. */
  lemma WithoutHead<T>(q: seq<T>, t: seq<T>, i: nat)
    requires multiset(q) == multiset(t) && q != [] && i < |t| && t[i] == q[0]
    ensures multiset(q[1..]) == multiset(Without(t, i))
  {
    MultisetHeadTail(q);
    assert multiset(q[1..]) == multiset(q) - multiset{q[0]};
  }

  /** Taking the head or leaving it out: both halves of the recursion keep the shape. */
  lemma ShapeOfUnion<T>(s: seq<T>, with: seq<seq<T>>, without: seq<seq<T>>, k: nat)
    requires k > 0 && s != []
    requires SizedFrom(with, k - 1, s[1..]) && SizedFrom(without, k, s[1..])
    ensures SizedFrom(Prefixed(s[0], with) + without, k, s)
  {
    PrefixedMultisets(s[0], with, s[1..], k - 1);
    MultisetHeadTail(s);
  }

  /** A sequence headed by x whose tail is in ps is in Prefixed(x, ps). */
  lemma PrefixedContains<T>(x: T, ps: seq<seq<T>>, q: seq<T>)
    requires q != [] && q[0] == x && q[1..] in ps
    ensures q in Prefixed(x, ps)
  {
    var k :| 0 <= k < |ps| && ps[k] == q[1..];
    assert Prefixed(x, ps)[k] == q;
  }

  /** A candidate of a selection that is one of the combinations is one of the candidates. */
  lemma {:induction false} FlatPermsContains<T>(cs: seq<seq<T>>, c: seq<T>, q: seq<T>)
    requires c in cs && q in Permutations(c)
    ensures q in FlatPerms(cs)
  {
    if cs[|cs| - 1] != c {
      FlatPermsContains(cs[..|cs| - 1], c, q);
    }
  }

  lemma {:induction false} SolutionsContains(men: seq<string>, cands: seq<seq<string>>, q: seq<string>, booths: seq<Booth>, cs: seq<Ceremony>)
    requires q in cands && IsValid(Zip(men, q), booths, cs)
    ensures Zip(men, q) in Solutions(men, cands, booths, cs)
  {
    if cands[|cands| - 1] != q {
      SolutionsContains(men, cands[..|cands| - 1], q, booths, cs);
    }
  }

  /** Two duplicate-free lists with the same elements are rearrangements of each other. */
  lemma SameElementsSameMultiset<T>(a: seq<T>, b: seq<T>)
    requires NoDups(a) && NoDups(b)
    requires forall x :: x in a <==> x in b
    ensures multiset(a) == multiset(b)
  {
    forall x ensures multiset(a)[x] == multiset(b)[x] {
      NoDupsMultiplicity(a, x);
      NoDupsMultiplicity(b, x);
    }
  }

  /** The partners of the men, in the order of the men. */
  function PartnersOf(p: Pairing, men: seq<string>): (q: seq<string>)
    requires forall m :: m in men ==> m in p
    ensures |q| == |men| && forall i :: 0 <= i < |men| ==> q[i] == p[men[i]]
  {
    seq(|men|, i requires 0 <= i < |men| => p[men[i]])
  }

  /** Zipping the distinct men with their partners gives the pairing back. */
  lemma ZipPartners(p: Pairing, men: seq<string>)
    requires NoDups(men) && p.Keys == (set m | m in men)
    ensures Zip(men, PartnersOf(p, men)) == p
  {
    var q := PartnersOf(p, men);
    forall m | m in p ensures Zip(men, q)[m] == p[m] {
      var i :| 0 <= i < |men| && men[i] == m;
      ZipAt(men, q, i);
    }
  }

  /** The partners of a well-shaped pairing of distinct men are a rearrangement of
      the women of the list that are taken. */
  lemma PartnersAreSelection(p: Pairing, men: seq<string>, women: seq<string>)
    requires NoDups(men) && NoDups(women) && WellShaped(p, men, women)
    ensures var c := Select(women, set m | m in p :: p[m]);
            multiset(PartnersOf(p, men)) == multiset(c) && |c| == |men|
  {
    var q := PartnersOf(p, men);
    var c := Select(women, set m | m in p :: p[m]);
    SelectMembers(women, set m | m in p :: p[m]);
    forall i, j | 0 <= i < j < |q| ensures q[i] != q[j] {
      assert men[i] != men[j];
    }
    forall x ensures x in c <==> x in q {
      if x in c {
        var m :| m in p && p[m] == x;
        var i :| 0 <= i < |men| && men[i] == m;
        assert q[i] == x;
      }
    }
    SelectNoDups(women, set m | m in p :: p[m]);
    SameElementsSameMultiset(c, q);
    assert |c| == |multiset(c)| == |multiset(q)| == |men|;
  }

  /** Completeness: every valid pairing of the distinct men to distinct women of
      the list is met by the search. */
  lemma SearchComplete(men: seq<string>, women: seq<string>, booths: seq<Booth>, cs: seq<Ceremony>, p: Pairing)
    requires NoDups(men) && NoDups(women)
    requires WellShaped(p, men, women) && IsValid(p, booths, cs)
    ensures p in AllSolutions(men, women, booths, cs)
  {
    var q := PartnersOf(p, men);
    var c := Select(women, set m | m in p :: p[m]);
    PartnersAreSelection(p, men, women);
    SelectIsCombination(women, set m | m in p :: p[m]);
    PermutationsComplete(c, q);
    FlatPermsContains(Combinations(women, |men|), c, q);
    ZipPartners(p, men);
    SolutionsContains(men, Candidates(women, |men|), q, booths, cs);
  }

  // ---------------------------------------------------------------------
  // The search
  // ---------------------------------------------------------------------

  /** `find_valid_ayto_solutions`: the first max(limit, 1) valid pairings, in the
      order of the enumeration; the search returns as soon as it has `limit` of them. */
  method FindValidSolutions(men: seq<string>, women: seq<string>, booths: seq<Booth>, cs: seq<Ceremony>, limit: int)
    returns (solutions: seq<Pairing>)
    ensures solutions == Take(AllSolutions(men, women, booths, cs), Max(limit, 1))
  {
    var combos := Combinations(women, |men|);
    solutions := [];
    for i := 0 to |combos|
      invariant solutions == Solutions(men, FlatPerms(combos[..i]), booths, cs)
      invariant |solutions| < Max(limit, 1)
    {
      var perms := Permutations(combos[i]);
      ghost var done := FlatPerms(combos[..i]);
      assert done + perms[..0] == done;
      for j := 0 to |perms|
        invariant solutions == Solutions(men, done + perms[..j], booths, cs)
        invariant |solutions| < Max(limit, 1)
      {
        var pairing := Zip(men, perms[j]);
        SolutionsNext(men, done, perms, j, booths, cs);
        if IsValid(pairing, booths, cs) {
          solutions := solutions + [pairing];
          if |solutions| >= limit {
            CandidatesSplit(women, |men|, i, j);
            SolutionsAppend(men, done + perms[..j + 1], perms[j + 1..] + FlatPerms(combos[i + 1..]), booths, cs);
            return;
          }
        }
      }
      assert perms[..|perms|] == perms;
      FlatPermsNext(combos, i);
    }
    assert combos[..|combos|] == combos;
  }

  /** The search's inner step: one more candidate of the current selection. */
  lemma SolutionsNext(men: seq<string>, done: seq<seq<string>>, perms: seq<seq<string>>, j: nat,
                      booths: seq<Booth>, cs: seq<Ceremony>)
    requires j < |perms|
    ensures Solutions(men, done + perms[..j + 1], booths, cs)
            == Solutions(men, done + perms[..j], booths, cs)
               + (if IsValid(Zip(men, perms[j]), booths, cs) then [Zip(men, perms[j])] else [])
  {
    assert (done + perms[..j + 1])[..|done + perms[..j + 1]| - 1] == done + perms[..j];
  }

  /** The search's outer step: one more selection. */
  lemma FlatPermsNext(combos: seq<seq<string>>, i: nat)
    requires i < |combos|
    ensures FlatPerms(combos[..i + 1]) == FlatPerms(combos[..i]) + Permutations(combos[i])
  {
    PrefixOfPrefix(combos, i);
  }

  /** Where the search stands after candidate j of selection i: the candidates
      tried so far, then the rest. */
  lemma CandidatesSplit(women: seq<string>, n: nat, i: nat, j: nat)
    requires i < |Combinations(women, n)| && j < |Permutations(Combinations(women, n)[i])|
    ensures var combos, perms := Combinations(women, n), Permutations(Combinations(women, n)[i]);
            Candidates(women, n) == (FlatPerms(combos[..i]) + perms[..j + 1]) + (perms[j + 1..] + FlatPerms(combos[i + 1..]))
  {
    var combos, perms := Combinations(women, n), Permutations(Combinations(women, n)[i]);
    SplitAt(combos, i + 1);
    FlatPermsAppend(combos[..i + 1], combos[i + 1..]);
    FlatPermsNext(combos, i);
    SplitAt(perms, j + 1);
    Regroup(FlatPerms(combos[..i]), perms[..j + 1], perms[j + 1..], FlatPerms(combos[i + 1..]));
  }

  /** What the search returns: at most max(limit, 1) pairings, each passing the
      three checks and pairing the men with women of the list (distinct women
      when the list has no duplicates); fewer than that only when every valid
      candidate was returned; and nothing when there are more men than women. */
  lemma FindValidSolutionsSound(men: seq<string>, women: seq<string>, booths: seq<Booth>, cs: seq<Ceremony>, limit: int)
    ensures var r := Take(AllSolutions(men, women, booths, cs), Max(limit, 1));
            && |r| <= Max(limit, 1)
            && (forall p :: p in r ==> IsValid(p, booths, cs) && WellShaped(p, men, women))
            && (|r| < Max(limit, 1) ==> r == AllSolutions(men, women, booths, cs))
            && (|men| > |women| ==> r == [])
  {
    CandidatesShape(women, |men|);
    SolutionsShape(men, Candidates(women, |men|), women, booths, cs);
    if |men| > |women| {
      MoreMenThanWomenNoSolution(men, women, booths, cs);
    }
  }

  /** An empty result means that no pairing of the distinct men to distinct
      women of the list passes the three checks. */
  lemma EmptyResultMeansNoSolution(men: seq<string>, women: seq<string>, booths: seq<Booth>, cs: seq<Ceremony>,
                                   limit: int, p: Pairing)
    requires NoDups(men) && NoDups(women)
    requires Take(AllSolutions(men, women, booths, cs), Max(limit, 1)) == []
    requires WellShaped(p, men, women)
    ensures !IsValid(p, booths, cs)
  {
    if IsValid(p, booths, cs) {
      SearchComplete(men, women, booths, cs, p);
    }
  }
}
