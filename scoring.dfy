/** The click-through-rate score of a (person, advertiser) pair of names:
    letter counts of the first name, a base rate chosen by the parity of the
    second name's length, and a single 50% bonus when the two lengths share a
    factor other than 1. Scores are exact reals (every value is a multiple of
    0.25). */
module Scoring {
  import opened Numbers
  import opened Collections

  /** ASCII vowels, lower and upper case. */
  predicate IsVowel(c: char)
  {
    (c == 'a' || c == 'e' || c == 'i' || c == 'o' || c == 'u') ||
    (c == 'A' || c == 'E' || c == 'I' || c == 'O' || c == 'U')
  }

  /** ASCII letters; every vowel is one. */
  predicate IsAsciiLetter(c: char)
    ensures IsVowel(c) ==> IsAsciiLetter(c)
  {
    ('a' <= c <= 'z') || ('A' <= c <= 'Z')
  }

  /** A consonant is an ASCII letter that is not a vowel; spaces, digits and
      every other character are neither. */
  predicate IsConsonant(c: char) {
    !IsVowel(c) && IsAsciiLetter(c)
  }

  /** Number of vowels in s. */
  function Vowels(s: string): nat {
    if s == [] then 0
    else Vowels(s[..|s| - 1]) + (if IsVowel(s[|s| - 1]) then 1 else 0)
  }

  /** Number of consonants in s. */
  function Consonants(s: string): nat {
    if s == [] then 0
    else Consonants(s[..|s| - 1]) + (if IsConsonant(s[|s| - 1]) then 1 else 0)
  }

  /** Number of ASCII letters in s. */
  function Letters(s: string): nat {
    if s == [] then 0
    else Letters(s[..|s| - 1]) + (if IsAsciiLetter(s[|s| - 1]) then 1 else 0)
  }

  /** Every ASCII letter is counted exactly once, as a vowel or as a
      consonant, and no other character is counted. */
  lemma {:induction false} LetterCounts(s: string)
    ensures Vowels(s) + Consonants(s) == Letters(s) <= |s|
  {
    if s != [] {
      LetterCounts(s[..|s| - 1]);
    }
  }

  /** The candidates 1..k tested by GetFactors on n, each divisor f followed
      by its cofactor n / f unless the two coincide. */
  function FactorsUpTo(n: nat, k: nat): seq<nat>
  {
    if k == 0 then []
    else
      FactorsUpTo(n, k - 1) +
      (if n % k == 0 then (if k != n / k then [k, n / k] else [k]) else [])
  }

  /** The list GetFactors returns: the search stops at the floor square root. */
  function FactorList(n: nat): seq<nat> {
    FactorsUpTo(n, ISqrt(n))
  }

  /** After testing 1..k (k at most the square root) the list holds only
      divisors, each at most k or a cofactor, above the root, of one at most
      k. */
  lemma {:induction false} FactorsUpToSound(n: nat, k: nat)
    requires n >= 1 && k <= ISqrt(n)
    ensures forall x :: x in FactorsUpTo(n, k) ==>
      x >= 1 && n % x == 0 && (x <= k || (x > ISqrt(n) && n / x <= k))
  {
    if k > 0 {
      FactorsUpToSound(n, k - 1);
      if n % k == 0 {
        DivisorPair(n, k);
        if k != n / k {
          CofactorAboveRoot(n, k, ISqrt(n));
        }
      }
    }
  }

  /** After testing 1..k every divisor up to k is listed with its cofactor. */
  lemma {:induction false} FactorsUpToComplete(n: nat, k: nat)
    ensures forall d :: 1 <= d <= k && n % d == 0 ==>
      d in FactorsUpTo(n, k) && n / d in FactorsUpTo(n, k)
  {
    if k > 0 {
      FactorsUpToComplete(n, k - 1);
    }
  }

  /** After testing 1..k (k at most the square root) nothing is listed twice:
      in particular a square root is not added twice. */
  lemma {:induction false} FactorsUpToDistinct(n: nat, k: nat)
    requires n >= 1 && k <= ISqrt(n)
    ensures Distinct(FactorsUpTo(n, k))
  {
    if k > 0 {
      var prev := FactorsUpTo(n, k - 1);
      FactorsUpToDistinct(n, k - 1);
      if n % k == 0 {
        var q: nat := n / k;
        NewFactorsFresh(n, k, prev);
        if k != q {
          assert Distinct([k, q]) by {
            assert [k, q][1..] == [q] && [q][1..] == [];
            assert k !in [q];
          }
          DistinctConcat(prev, [k, q]);
        } else {
          assert [k][1..] == [];
          DistinctConcat(prev, [k]);
        }
      } else {
        assert FactorsUpTo(n, k) == prev;
      }
    }
  }

  /** The divisor k and its cofactor are not yet listed when k is tested. */
  lemma NewFactorsFresh(n: nat, k: nat, prev: seq<nat>)
    requires n >= 1 && 1 <= k <= ISqrt(n) && n % k == 0 && prev == FactorsUpTo(n, k - 1)
    ensures forall x :: x in prev ==> x != k && x != n / k
  {
    FactorsUpToSound(n, k - 1);
    DivisorPair(n, k);
    if k != n / k {
      CofactorAboveRoot(n, k, ISqrt(n));
    }
  }

  /** The cofactor of a divisor at or below the root, when different from
      it, lies above the root. */
  lemma CofactorAboveRoot(n: nat, k: nat, m: nat)
    requires m * m <= n < (m + 1) * (m + 1)
    requires 1 <= k <= m && n % k == 0 && k != n / k
    ensures n / k > m
  {
    var q := n / k;
    DivisorPair(n, k);
    if q <= m {
      if k < m {
        MulMonotone(k, q, m - 1, m);
      } else {
        MulMonotone(q, k, m - 1, m);
      }
    }
  }

  /** The cofactor of a divisor above the root lies at or below the root. */
  lemma CofactorBelowRoot(n: nat, d: nat, m: nat)
    requires m * m <= n < (m + 1) * (m + 1)
    requires d > m && n >= 1 && n % d == 0
    ensures 1 <= n / d <= m
  {
    var q := n / d;
    DivisorPair(n, d);
    if q > m {
      MulMonotone(m + 1, m + 1, d, q);
    }
  }

  /** GetFactors(n) lists exactly the positive divisors of n, each once;
      for n = 0 it is empty. */
  lemma FactorListIsDivisors(n: nat)
    ensures forall d :: d in FactorList(n) <==> n >= 1 && d >= 1 && n % d == 0
    ensures Distinct(FactorList(n))
  {
    if n >= 1 {
      var m := ISqrt(n);
      FactorsUpToSound(n, m);
      FactorsUpToComplete(n, m);
      FactorsUpToDistinct(n, m);
      forall d | d >= 1 && n % d == 0 ensures d in FactorList(n) {
        if d > m {
          CofactorBelowRoot(n, d, m);
          DivisorPair(n, d);
        }
      }
    }
  }

  /** GetFactors (lines 110-122): trial division up to the floor square
      root, appending each divisor and then its cofactor. */
  method GetFactors(number: nat) returns (factors: seq<nat>)
    ensures factors == FactorList(number)
    ensures forall d :: d in factors <==> number >= 1 && d >= 1 && number % d == 0
    ensures Distinct(factors)
  {
    factors := [];
    var max := ISqrt(number);
    for factor := 1 to max + 1
      invariant factors == FactorsUpTo(number, factor - 1)
    {
      if number % factor == 0 {
        factors := factors + [factor];
        if factor != number / factor {
          factors := factors + [number / factor];
        }
      }
    }
    FactorListIsDivisors(number);
  }

  /** Some factor other than 1 in the second list occurs in the first. */
  predicate SharesFactor(personFactors: seq<nat>, advertiserFactors: seq<nat>) {
    exists j :: 0 <= j < |advertiserFactors| && advertiserFactors[j] != 1 && advertiserFactors[j] in personFactors
  }

  /** The base rate: 1.5 per vowel of the person's name when the advertiser's
      name has even length, 1 per consonant when odd. */
  function BaseCtr(person: string, advertiser: string): real {
    if |advertiser| % 2 == 0 then 1.5 * (Vowels(person) as real)
    else Consonants(person) as real
  }

  /** The 50% bonus applies: both lengths are positive and share a factor
      other than 1. */
  predicate LengthsShareFactor(m: nat, n: nat) {
    m >= 1 && n >= 1 && Gcd(m, n) > 1
  }

  /** GetCTR(person, advertiser) (lines 80-108): the base rate, times 1.5
      once when the lengths share a factor. */
  function Ctr(person: string, advertiser: string): (r: real)
    ensures r >= 0.0
  {
    var base := BaseCtr(person, advertiser);
    if LengthsShareFactor(|person|, |advertiser|) then base * 1.5 else base
  }

  /** The source's factor-list test is a gcd test on the two lengths. */
  lemma SharesFactorIffGcd(a: nat, b: nat)
    ensures SharesFactor(FactorList(a), FactorList(b)) <==> LengthsShareFactor(a, b)
  {
    var fa, fb := FactorList(a), FactorList(b);
    FactorListIsDivisors(a);
    FactorListIsDivisors(b);
    if SharesFactor(fa, fb) {
      var j :| 0 <= j < |fb| && fb[j] != 1 && fb[j] in fa;
      var d := fb[j];
      assert d in fb && d in fa;
      assert SharedDivisor(d, a, b);
      CommonDivisorIffGcd(a, b);
    }
    if LengthsShareFactor(a, b) {
      CommonDivisorIffGcd(a, b);
      var d :| SharedDivisor(d, a, b);
      assert d in fb && d in fa;
      var j :| 0 <= j < |fb| && fb[j] == d;
      assert SharesFactor(fa, fb);
    }
  }

  /** The score as the source computes it: the base rate, times 1.5 once if
      some factor other than 1 of the advertiser's length is among the
      factors of the person's length. */
  lemma CtrByFactorLists(person: string, advertiser: string)
    ensures Ctr(person, advertiser) ==
      (if |advertiser| % 2 == 0 then 1.5 * (Vowels(person) as real) else Consonants(person) as real) *
      (if SharesFactor(FactorList(|person|), FactorList(|advertiser|)) then 1.5 else 1.0)
  {
    SharesFactorIffGcd(|person|, |advertiser|);
  }

  /** A score never exceeds 2.25 per character of the person's name. */
  lemma CtrBound(person: string, advertiser: string)
    ensures 0.0 <= Ctr(person, advertiser) <= 2.25 * (|person| as real)
  {
    LetterCounts(person);
  }

  /** GetCTR (lines 80-108): the counting loop over the person's name, the
      base rate, then the scan of the advertiser's factors against a set of
      the person's factors that stops at the first shared one. */
  method GetCtr(person: string, advertiser: string) returns (ctr: real)
    ensures ctr == Ctr(person, advertiser)
  {
    var vowelCount, consonantCount := 0, 0;
    for k := 0 to |person|
      invariant vowelCount == Vowels(person[..k])
      invariant consonantCount == Consonants(person[..k])
    {
      var c := person[k];
      assert person[..k + 1][..k] == person[..k];
      if IsVowel(c) {
        vowelCount := vowelCount + 1;
      } else if ('a' <= c <= 'z') || ('A' <= c <= 'Z') {
        consonantCount := consonantCount + 1;
      }
    }
    assert person[..|person|] == person;

    ctr := if |advertiser| % 2 == 0 then 1.5 * (vowelCount as real) else consonantCount as real;

    var personFactors := GetFactors(|person|);
    var advertiserFactors := GetFactors(|advertiser|);
    var personFactorSet := set f | f in personFactors;
    for k := 0 to |advertiserFactors|
      invariant ctr == BaseCtr(person, advertiser)
      invariant forall j :: 0 <= j < k ==> !(advertiserFactors[j] != 1 && advertiserFactors[j] in personFactors)
    {
      var factor := advertiserFactors[k];
      if factor != 1 && factor in personFactorSet {
        ctr := ctr * 1.5;
        break;
      }
    }
    SharesFactorIffGcd(|person|, |advertiser|);
  }
}
