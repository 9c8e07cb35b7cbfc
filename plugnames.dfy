/**
  Candidate names for plugs (node.cpp:418-437).

  When a node already has a plug of the requested name, it tries the name followed
  by a suffix and an index, "name_2", "name_3", and so on. This module defines the
  decimal rendering of the index and proves that different indices give different
  candidates, which is what makes the search in `Graph.Node.UniquePlugName` end.
*/
module PlugNames {

  /** The default text between a plug name and its index (node.cpp:37). */
  const DefaultSuffix: string := "_"

  /** The decimal digit for `d`. */
  function Digit(d: nat): (c: char)
    requires d < 10
    ensures '0' <= c <= '9' && c as int - '0' as int == d
  {
    ('0' as int + d) as char
  }

  /** `QString::number` of an unsigned integer: its decimal digits, most significant
      first, without leading zeros. */
  function NumberString(n: nat): (s: string)
    ensures |s| >= 1
    ensures forall i :: 0 <= i < |s| ==> '0' <= s[i] <= '9'
    ensures s[|s| - 1] == Digit(n % 10)
    ensures n >= 10 <==> |s| >= 2
  {
    if n < 10 then [Digit(n)] else NumberString(n / 10) + [Digit(n % 10)]
  }

  /** The digits of a number read back give the number. */
  function DigitsValue(s: string): int
  {
    if s == [] then 0 else 10 * DigitsValue(s[..|s| - 1]) + (s[|s| - 1] as int - '0' as int)
  }

  /** Reading the decimal rendering back recovers the number. */
  lemma {:induction false} NumberStringRoundTrip(n: nat)
    ensures DigitsValue(NumberString(n)) == n
  {
    var s := NumberString(n);
    if n < 10 {
      assert s[..0] == [];
      assert DigitsValue(s) == 10 * DigitsValue([]) + (s[0] as int - '0' as int);
    } else {
      var q := NumberString(n / 10);
      assert s == q + [Digit(n % 10)];
      assert s[..|s| - 1] == q;
      NumberStringRoundTrip(n / 10);
      assert DigitsValue(s) == 10 * (n / 10) + n % 10;
    }
  }

  /** A non-zero number is rendered without a leading zero. */
  lemma {:induction false} NumberStringNoLeadingZero(n: nat)
    requires n > 0
    ensures NumberString(n)[0] != '0'
  {
    if n >= 10 {
      NumberStringNoLeadingZero(n / 10);
    }
  }

  /** Different numbers have different renderings. */
  lemma NumberStringInjective(a: nat, b: nat)
    requires NumberString(a) == NumberString(b)
    ensures a == b
  {
    NumberStringRoundTrip(a);
    NumberStringRoundTrip(b);
  }

  /** The candidate name with index `index` (node.cpp:430). */
  function Candidate(name: string, suffix: string, index: nat): (c: string)
    ensures |c| > |name| + |suffix| && c[..|name| + |suffix|] == name + suffix
  {
    name + suffix + NumberString(index)
  }

  /** Different indices give different candidates. */
  lemma CandidateInjective(name: string, suffix: string, j: nat, k: nat)
    requires Candidate(name, suffix, j) == Candidate(name, suffix, k)
    ensures j == k
  {
    var p := |name| + |suffix|;
    assert NumberString(j) == Candidate(name, suffix, j)[p..];
    assert NumberString(k) == Candidate(name, suffix, k)[p..];
    NumberStringInjective(j, k);
  }

  /** The candidates with the indices 2 up to `index` - 1. */
  function CandidatesBelow(name: string, index: nat): set<string>
  {
    if index <= 2 then {}
    else CandidatesBelow(name, index - 1) + {Candidate(name, DefaultSuffix, index - 1)}
  }

  /** A candidate with a larger index is none of the earlier ones. */
  lemma {:induction false} CandidatesBelowExclude(name: string, index: nat, k: nat)
    requires k >= index
    ensures Candidate(name, DefaultSuffix, k) !in CandidatesBelow(name, index)
  {
    if index > 2 {
      CandidatesBelowExclude(name, index - 1, k);
      if Candidate(name, DefaultSuffix, k) == Candidate(name, DefaultSuffix, index - 1) {
        CandidateInjective(name, DefaultSuffix, k, index - 1);
      }
    }
  }

  /** The search tries `index` - 2 different names before reaching `index`. */
  lemma {:induction false} CandidatesBelowCount(name: string, index: nat)
    requires index >= 2
    ensures |CandidatesBelow(name, index)| == index - 2
  {
    if index > 2 {
      CandidatesBelowCount(name, index - 1);
      CandidatesBelowExclude(name, index - 1, index - 1);
    }
  }
}
