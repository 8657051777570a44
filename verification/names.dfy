/** Variable and symbol names, decimal rendering of counters, and the
    counter-driven fresh-name search shared by substitution (`uv<n>`),
    resolution (`uv<n>`) and the signature table (`uf<n>`). */
module Names {

  /** Variables, function symbols and relation symbols are plain strings. */
  type Name = string

  function Digit(d: nat): char
    requires d < 10
  {
    "0123456789"[d]
  }

  /** The digit `Digit(d)` stands for `d`. */
  lemma DigitValue(d: nat)
    requires d < 10
    ensures '0' <= Digit(d) <= '9' && Digit(d) as int - '0' as int == d
  {
  }

  predicate AllDigits(s: string)
  {
    forall i :: 0 <= i < |s| ==> '0' <= s[i] <= '9'
  }

  /** The number a string of decimal digits spells, most significant first. */
  function DecimalValue(s: string): nat
    requires AllDigits(s)
  {
    if s == [] then 0 else 10 * DecimalValue(s[..|s| - 1]) + (s[|s| - 1] as int - '0' as int)
  }

  /** Decimal rendering of a counter, as `std::to_string` produces it. */
  function NatToString(n: nat): (r: string)
    ensures |r| >= 1 && AllDigits(r)
    ensures n < 10 <==> |r| == 1
  {
    if n < 10 then [Digit(n)] else NatToString(n / 10) + [Digit(n % 10)]
  }

  /** The rendering spells `n` in decimal, with no leading zero. */
  lemma {:induction false} NatToStringValue(n: nat)
    ensures DecimalValue(NatToString(n)) == n
    ensures |NatToString(n)| > 1 ==> NatToString(n)[0] != '0'
  {
    DigitValue(n % 10);
    if n >= 10 {
      NatToStringValue(n / 10);
      var r := NatToString(n);
      assert r[..|r| - 1] == NatToString(n / 10);
      if n / 10 < 10 {
        DigitValue(n / 10);
      }
    }
  }

  /** Different counters give different names. */
  lemma NatToStringInjective(m: nat, n: nat)
    requires NatToString(m) == NatToString(n)
    ensures m == n
  {
    NatToStringValue(m);
    NatToStringValue(n);
  }

  function Pow10(k: nat): (r: nat)
    ensures r >= 1
  {
    if k == 0 then 1 else 10 * Pow10(k - 1)
  }

  /** A number at least 10^k needs more than k digits. */
  lemma {:induction false} NatToStringLength(n: nat, k: nat)
    requires n >= Pow10(k)
    ensures |NatToString(n)| > k
  {
    if k > 0 {
      assert n / 10 >= Pow10(k - 1);
      NatToStringLength(n / 10, k - 1);
    }
  }

  /** The length of the longest name in a finite set (0 for the empty set). */
  ghost function MaxLength(s: set<Name>): nat
  {
    if s == {} then 0
    else
      var x :| x in s;
      var rest := MaxLength(s - {x});
      if |x| > rest then |x| else rest
  }

  /** No name of the set is longer than `MaxLength`. */
  lemma {:induction false} MaxLengthBound(s: set<Name>, y: Name)
    requires y in s
    ensures |y| <= MaxLength(s)
    decreases s
  {
    var x :| x in s && MaxLength(s) == (if |x| > MaxLength(s - {x}) then |x| else MaxLength(s - {x}));
    if y != x {
      MaxLengthBound(s - {x}, y);
    }
  }

  /** The name tried for counter value `n`: the prefix followed by `n` in decimal. */
  function Candidate(prefix: string, n: nat): Name
  {
    prefix + NatToString(n)
  }

  /** Only counter values below 10^(longest avoided name) can produce an avoided name. */
  lemma CandidateBound(prefix: string, avoid: set<Name>, n: nat)
    requires Candidate(prefix, n) in avoid
    ensures n < Pow10(MaxLength(avoid))
  {
    MaxLengthBound(avoid, Candidate(prefix, n));
    if n >= Pow10(MaxLength(avoid)) {
      NatToStringLength(n, MaxLength(avoid));
    }
  }

  /** The source's do-while search: try `prefix + to_string(counter++)` until the
      candidate is not in `avoid`. Returns the accepted name and the counter after
      its post-increment; every skipped counter value named an avoided name. */
  function Fresh(prefix: string, avoid: set<Name>, counter: nat): (r: (Name, nat))
    ensures r.0 !in avoid
    ensures r.1 > counter
    ensures r.0 == Candidate(prefix, r.1 - 1)
    ensures Skipped(prefix, avoid, counter, r.1 - 1)
    decreases Pow10(MaxLength(avoid)) - counter
  {
    var name := Candidate(prefix, counter);
    if name !in avoid then (name, counter + 1)
    else
      CandidateBound(prefix, avoid, counter);
      var r := Fresh(prefix, avoid, counter + 1);
      SkippedExtend(prefix, avoid, counter, r.1 - 1);
      r
  }

  /** Every counter value from `lo` up to `hi` names an avoided name. */
  predicate Skipped(prefix: string, avoid: set<Name>, lo: nat, hi: nat)
  {
    forall k :: lo <= k < hi ==> Candidate(prefix, k) in avoid
  }

  lemma SkippedExtend(prefix: string, avoid: set<Name>, lo: nat, hi: nat)
    requires Candidate(prefix, lo) in avoid && Skipped(prefix, avoid, lo + 1, hi)
    ensures Skipped(prefix, avoid, lo, hi)
  {
  }
}
