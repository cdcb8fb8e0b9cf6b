/** The records of one season: truth booths and match ceremonies, and the
    (man, woman) cells that the probability and certainty maps are keyed by. */
module Season {
  import Names

  datatype Option<T> = None | Some(value: T)

  /** A (man, woman) pair; the key of every probability and certainty cell. */
  type Pair = (string, string)

  /** The revealed truth about one pair. */
  datatype Booth = Booth(man: string, woman: string, isMatch: bool)

  /** A match ceremony: its listed pairs, its score, and the optional
      string-valued entries of the ceremony record, by key. */
  datatype Ceremony = Ceremony(pairs: seq<Pair>, score: int, labels: map<string, string>)

  /** `(man.lower(), woman.lower())`. */
  function LowerPair(p: Pair): Pair {
    (Names.Lower(p.0), Names.Lower(p.1))
  }

  /** Every (man, woman) cell of two participant lists. */
  function Cells(men: seq<string>, women: seq<string>): (r: set<Pair>)
    ensures forall k :: k in r <==> k.0 in men && k.1 in women
  {
    set m, w | m in men && w in women :: (m, w)
  }

  /** Every (man, woman) cell of the two lists is a key. */
  predicate Covers(keys: set<Pair>, men: seq<string>, women: seq<string>) {
    forall m, w :: m in men && w in women ==> (m, w) in keys
  }

  /** `fixed.get(k, False) and probabilities.get(k, 0) == 1.0`: the cell is a
      confirmed match. */
  predicate IsSure(probs: map<Pair, real>, fixed: map<Pair, bool>, k: Pair) {
    k in fixed && fixed[k] && k in probs && probs[k] == 1.0
  }
}
