/** Participant identifiers: case folding and decimal numbering of placeholders. */
module Names {

  /** Lower-casing of one character; only the ASCII letters A-Z are folded. */
  function LowerChar(c: char): (r: char)
    ensures !('A' <= r <= 'Z')
    ensures !('A' <= c <= 'Z') ==> r == c
  {
    if 'A' <= c <= 'Z' then (c as int - 'A' as int + 'a' as int) as char else c
  }

  /** `s.lower()` on an identifier. */
  function Lower(s: string): (r: string)
    ensures |r| == |s|
    ensures forall i :: 0 <= i < |s| ==> r[i] == LowerChar(s[i])
  {
    seq(|s|, i requires 0 <= i < |s| => LowerChar(s[i]))
  }

  /** `[x.lower() for x in names]`. */
  function LowerAll(names: seq<string>): (r: seq<string>)
    ensures |r| == |names|
    ensures forall i :: 0 <= i < |names| ==> r[i] == Lower(names[i])
  {
    seq(|names|, i requires 0 <= i < |names| => Lower(names[i]))
  }

  /** A name with no upper-case ASCII letter. */
  predicate IsLower(s: string) {
    forall i :: 0 <= i < |s| ==> !('A' <= s[i] <= 'Z')
  }

  /** Folding a name that is already lower-case changes nothing. */
  lemma LowerOfLower(s: string)
    requires IsLower(s)
    ensures Lower(s) == s
  {
  }

  /** Every folded name is lower-case, so folding twice is folding once. */
  lemma LowerIdempotent(s: string)
    ensures IsLower(Lower(s)) && Lower(Lower(s)) == Lower(s)
  {
  }

  lemma LowerAllOfLower(names: seq<string>)
    requires forall i :: 0 <= i < |names| ==> IsLower(names[i])
    ensures LowerAll(names) == names
  {
    forall i | 0 <= i < |names| ensures LowerAll(names)[i] == names[i] {
      LowerOfLower(names[i]);
    }
  }

  function DigitChar(d: nat): (c: char)
    requires d < 10
    ensures '0' <= c <= '9'
  {
    "0123456789"[d]
  }

  /** Decimal notation of a natural number, as f"{n}" writes it. */
  function NatToString(n: nat): (r: string)
    ensures |r| >= 1
    ensures IsLower(r)
    ensures n < 10 <==> |r| == 1
    decreases n
  {
    if n < 10 then [DigitChar(n)] else NatToString(n / 10) + [DigitChar(n % 10)]
  }

  /** The last digit of a number of two or more digits, and the digits before it. */
  lemma NatToStringSplit(n: nat)
    requires n >= 10
    ensures var r := NatToString(n);
            r[..|r| - 1] == NatToString(n / 10) && r[|r| - 1] == DigitChar(n % 10)
  {
    var r := NatToString(n);
    assert r == NatToString(n / 10) + [DigitChar(n % 10)];
  }

  lemma DigitCharInjective(a: nat, b: nat)
    requires a < 10 && b < 10 && DigitChar(a) == DigitChar(b)
    ensures a == b
  {
  }

  /** Distinct numbers have distinct decimal notations. */
  lemma {:induction false} NatToStringInjective(a: nat, b: nat)
    requires NatToString(a) == NatToString(b)
    ensures a == b
    decreases a
  {
    var sa, sb := NatToString(a), NatToString(b);
    if a < 10 {
      assert b < 10;
      assert sa == [DigitChar(a)] && sb == [DigitChar(b)];
      DigitCharInjective(a, b);
    } else {
      assert b >= 10;
      NatToStringSplit(a);
      NatToStringSplit(b);
      DigitCharInjective(a % 10, b % 10);
      NatToStringInjective(a / 10, b / 10);
    }
  }
}
