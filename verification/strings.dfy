/** Text helpers shared by key construction: decimal rendering of indices
    (as C# string interpolation of an `int` produces it), joining, and the
    injectivity facts that make "try the next index" loops terminate. */
module Strings {

  /** The decimal digit character for `d`. */
  function DigitChar(d: nat): char
    requires d < 10
  {
    "0123456789"[d]
  }

  /** The numeric value of a decimal digit character (0 for anything else). */
  function DigitValue(c: char): nat
  {
    if '0' <= c <= '9' then (c as int - '0' as int) else 0
  }

  /** Decimal rendering of a natural number, most significant digit first. */
  function NatToString(n: nat): (s: string)
    ensures |s| >= 1
    ensures forall i :: 0 <= i < |s| ==> '0' <= s[i] <= '9'
  {
    if n < 10 then [DigitChar(n)] else NatToString(n / 10) + [DigitChar(n % 10)]
  }

  /** Reads a string of decimal digits back into a number. */
  function ParseNat(s: string): nat
  {
    if |s| == 0 then 0 else 10 * ParseNat(s[..|s| - 1]) + DigitValue(s[|s| - 1])
  }

  lemma DigitRoundTrip(d: nat)
    requires d < 10
    ensures DigitValue(DigitChar(d)) == d
  {
  }

  /** Parsing undoes rendering. */
  lemma {:induction false} ParseNatToString(n: nat)
    ensures ParseNat(NatToString(n)) == n
  {
    if n < 10 {
      DigitRoundTrip(n);
    } else {
      var s := NatToString(n);
      assert s[..|s| - 1] == NatToString(n / 10);
      ParseNatToString(n / 10);
      DigitRoundTrip(n % 10);
    }
  }

  /** Distinct numbers render as distinct strings. */
  lemma NatToStringInjective(a: nat, b: nat)
    requires NatToString(a) == NatToString(b)
    ensures a == b
  {
    ParseNatToString(a);
    ParseNatToString(b);
  }

  /** `string.Join(sep, parts)`: the parts with `sep` between neighbours. */
  function Join(sep: string, parts: seq<string>): string
  {
    if |parts| == 0 then ""
    else if |parts| == 1 then parts[0]
    else parts[0] + sep + Join(sep, parts[1..])
  }

  /** Strings that agree on a common prefix and suffix agree in the middle. */
  lemma CancelAround(p: string, x: string, y: string, q: string)
    requires p + x + q == p + y + q
    ensures x == y
  {
    var s := p + x + q;
    assert |x| == |y|;
    assert x == s[|p|..|p| + |x|];
  }

  /** The set of `f(1), ..., f(k)`. */
  ghost function Image(f: nat -> string, k: nat): set<string>
  {
    if k == 0 then {} else Image(f, k - 1) + {f(k)}
  }

  lemma {:induction false} ImageMembers(f: nat -> string, k: nat, s: string)
    ensures s in Image(f, k) <==> exists j :: 1 <= j <= k && f(j) == s
  {
    if k > 0 {
      ImageMembers(f, k - 1, s);
    }
  }

  lemma {:induction false} ImageSize(f: nat -> string, k: nat)
    requires forall a, b :: 1 <= a <= k && 1 <= b <= k && f(a) == f(b) ==> a == b
    ensures |Image(f, k)| == k
  {
    if k > 0 {
      ImageSize(f, k - 1);
      ImageMembers(f, k - 1, f(k));
    }
  }

  lemma {:induction false} SubsetSize(a: set<string>, b: set<string>)
    requires a <= b
    ensures |a| <= |b|
  {
    if a != {} {
      var x :| x in a;
      SubsetSize(a - {x}, b - {x});
    }
  }

  /** If `f` is injective on 1..k and all of `f(1), ..., f(k)` lie in the
      finite set `s`, then `k` is at most the size of `s`: a search that
      tries `f(1), f(2), ...` against `s` stops after at most `|s| + 1` tries. */
  lemma RunBound(f: nat -> string, s: set<string>, k: nat)
    requires forall a, b :: 1 <= a <= k && 1 <= b <= k && f(a) == f(b) ==> a == b
    requires forall j :: 1 <= j <= k ==> f(j) in s
    ensures k <= |s|
  {
    ImageSize(f, k);
    forall x | x in Image(f, k) ensures x in s {
      ImageMembers(f, k, x);
    }
    SubsetSize(Image(f, k), s);
  }
}
