/** The generic helpers of src/components/Util.tsx, together with the two
    JavaScript built-ins the game leans on: Array.prototype.indexOf and the
    conversion of an integer to its decimal string (`num + ""`). */
module Util {

  /** Array.prototype.indexOf: the first index that holds x, or -1. */
  function IndexOf<T(==)>(s: seq<T>, x: T): (i: int)
    ensures -1 <= i < |s|
    ensures i == -1 <==> x !in s
    ensures 0 <= i ==> s[i] == x && x !in s[..i]
  {
    if |s| == 0 then -1
    else if s[0] == x then 0
    else
      var k := IndexOf(s[1..], x);
      assert k != -1 ==> s[..k + 1] == [s[0]] + s[1..][..k];
      if k == -1 then -1 else k + 1
  }

  /** A position that holds x, with no x before it, is what indexOf finds. */
  lemma IndexOfAt<T>(s: seq<T>, x: T, k: int)
    requires 0 <= k < |s| && s[k] == x && x !in s[..k]
    ensures IndexOf(s, x) == k
  {
  }

  /** Array.prototype.findIndex: the first index whose element satisfies f, or -1. */
  function FirstIndex<T>(s: seq<T>, f: T -> bool): (i: int)
    ensures -1 <= i < |s|
  {
    if |s| == 0 then -1
    else if f(s[0]) then 0
    else
      var k := FirstIndex(s[1..], f);
      if k == -1 then -1 else k + 1
  }

  /** FirstIndex finds nothing exactly when no element satisfies f, and
      otherwise an element that does with none before it. */
  lemma {:induction false} FirstIndexSpec<T>(s: seq<T>, f: T -> bool)
    ensures var i := FirstIndex(s, f);
            && (i == -1 <==> forall k :: 0 <= k < |s| ==> !f(s[k]))
            && (0 <= i ==> f(s[i]) && forall k :: 0 <= k < i ==> !f(s[k]))
  {
    if |s| > 0 && !f(s[0]) {
      FirstIndexSpec(s[1..], f);
      var k := FirstIndex(s[1..], f);
      if k == -1 {
        forall j | 0 <= j < |s|
          ensures !f(s[j])
        {
          if j > 0 {
            assert s[j] == s[1..][j - 1];
          }
        }
      } else {
        forall j | 0 <= j < k + 1
          ensures !f(s[j])
        {
          if j > 0 {
            assert s[j] == s[1..][j - 1];
          }
        }
      }
    }
  }

  /** Among the indices below n that satisfy cand, k has the least dist, and
      every earlier such index has a strictly greater one: where a scan that
      replaces its choice only on a strict improvement ends. */
  ghost predicate Nearest(cand: int -> bool, dist: int -> real, n: int, k: int) {
    && 0 <= k < n && cand(k)
    && (forall j :: 0 <= j < n && cand(j) ==> dist(k) <= dist(j))
    && (forall j :: 0 <= j < k && cand(j) ==> dist(k) < dist(j))
  }

  /** An index that is no candidate, or no nearer one, leaves the choice alone. */
  lemma NearestKeep(cand: int -> bool, dist: int -> real, i: int, best: int)
    requires Nearest(cand, dist, i, best)
    requires cand(i) ==> dist(best) <= dist(i)
    ensures Nearest(cand, dist, i + 1, best)
  {
  }

  /** A candidate strictly nearer than every earlier one becomes the choice. */
  lemma NearestNew(cand: int -> bool, dist: int -> real, i: int)
    requires 0 <= i && cand(i)
    requires forall j :: 0 <= j < i && cand(j) ==> dist(i) < dist(j)
    ensures Nearest(cand, dist, i + 1, i)
  {
  }

  /** The nearest candidate is unique. */
  lemma NearestUnique(cand: int -> bool, dist: int -> real, n: int, k1: int, k2: int)
    requires Nearest(cand, dist, n, k1) && Nearest(cand, dist, n, k2)
    ensures k1 == k2
  {
  }

  /** Util.removeElement: splices out the first occurrence of x, if any.
      The source edits the array in place and returns it; here the new
      contents are returned and the caller stores them back. */
  function RemoveElement<T(==)>(s: seq<T>, x: T): (r: seq<T>)
    ensures x !in s ==> r == s
    ensures x in s ==> |r| == |s| - 1 && multiset(r) == multiset(s) - multiset{x}
    ensures x in s ==> exists i :: 0 <= i < |s| && s[i] == x && x !in s[..i] && r == s[..i] + s[i + 1..]
  {
    var i := IndexOf(s, x);
    if i != -1 then
      assert s == s[..i] + [s[i]] + s[i + 1..];
      s[..i] + s[i + 1..]
    else s
  }

  /** The character of a decimal digit. */
  function DigitChar(d: int): (c: char)
    requires 0 <= d < 10
    ensures '0' <= c <= '9' && c as int - '0' as int == d
  {
    ('0' as int + d) as char
  }

  predicate IsDigits(s: string) {
    forall k :: 0 <= k < |s| ==> '0' <= s[k] <= '9'
  }

  /** The decimal digits of a natural number, without leading zeros. */
  function NatToString(n: nat): (r: string)
    ensures |r| >= 1 && IsDigits(r)
    ensures |r| > 1 ==> r[0] != '0'
    ensures n < 10 <==> |r| == 1
    ensures 10 <= n < 100 <==> |r| == 2
  {
    if n < 10 then [DigitChar(n)] else NatToString(n / 10) + [DigitChar(n % 10)]
  }

  /** `num + ""` for an integer number of magnitude below 10^21: its digits,
      after a '-' when it is negative. From 10^21 on JavaScript switches to
      exponent form ("1e+21"), which this function does not model. */
  function IntToString(n: int): (r: string)
    ensures |r| >= 1
    ensures n >= 0 <==> r[0] != '-'
    ensures n >= 0 ==> IsDigits(r)
    ensures n < 0 ==> IsDigits(r[1..])
  {
    if n < 0 then "-" + NatToString(-n) else NatToString(n)
  }

  /** The value of a string of decimal digits (the inverse of NatToString). */
  function DigitsValue(s: string): int
  {
    if |s| == 0 then 0 else DigitsValue(s[..|s| - 1]) * 10 + (s[|s| - 1] as int - '0' as int)
  }

  lemma {:induction false} NatToStringParses(n: nat)
    ensures DigitsValue(NatToString(n)) == n
  {
    if n >= 10 {
      var r := NatToString(n);
      assert r[..|r| - 1] == NatToString(n / 10);
      NatToStringParses(n / 10);
    }
  }

  /** Distinct integers have distinct decimal strings. */
  lemma IntToStringInjective(a: int, b: int)
    requires IntToString(a) == IntToString(b)
    ensures a == b
  {
    if a >= 0 {
      NatToStringParses(a);
      NatToStringParses(b);
    } else {
      assert IntToString(a)[1..] == NatToString(-a);
      assert IntToString(b)[1..] == NatToString(-b);
      NatToStringParses(-a);
      NatToStringParses(-b);
    }
  }

  /** A string of k '0' characters. */
  function Zeros(k: nat): (r: string)
    ensures |r| == k && forall i :: 0 <= i < k ==> r[i] == '0'
  {
    if k == 0 then "" else "0" + Zeros(k - 1)
  }

  function Max(a: int, b: int): int {
    if a < b then b else a
  }

  /** Util.zeroPadNumber: the digits of num, left-padded with '0' to at least size characters. */
  method ZeroPadNumber(num: int, size: int) returns (r: string)
    ensures |r| == Max(size, |IntToString(num)|)
    ensures r == Zeros(|r| - |IntToString(num)|) + IntToString(num)
  {
    r := IntToString(num);
    while |r| < size
      invariant |r| >= |IntToString(num)|
      invariant |r| > |IntToString(num)| ==> |r| <= size
      invariant r == Zeros(|r| - |IntToString(num)|) + IntToString(num)
      decreases size - |r|
    {
      r := "0" + r;
    }
  }

  /** The exchange of two positions of a sequence. */
  function Swap<T>(s: seq<T>, i: int, j: int): (r: seq<T>)
    requires 0 <= i < |s| && 0 <= j < |s|
    ensures |r| == |s| && multiset(r) == multiset(s)
    ensures r[i] == s[j] && r[j] == s[i]
    ensures forall k :: 0 <= k < |s| && k != i && k != j ==> r[k] == s[k]
  {
    s[i := s[j]][j := s[i]]
  }

  /** The choices of a Fisher-Yates pass over n elements: choices[i] is the
      index drawn when position i is visited, so 0 <= choices[i] <= i. */
  predicate ValidChoices(choices: seq<int>, n: int) {
    |choices| == n && forall i :: 0 < i < n ==> 0 <= choices[i] <= i
  }

  /** A sequence that differs from s only by the exchange of positions i and j is Swap(s, i, j). */
  lemma SwapIsArraySwap<T>(s: seq<T>, t: seq<T>, i: int, j: int)
    requires 0 <= i < |s| && 0 <= j < |s| && |t| == |s|
    requires t[i] == s[j] && t[j] == s[i]
    requires forall k :: 0 <= k < |s| && k != i && k != j ==> t[k] == s[k]
    ensures t == Swap(s, i, j)
  {
  }

  /** The sequence after the swaps for positions n-1 down to 1 have been made. */
  function Shuffled<T>(s: seq<T>, choices: seq<int>, n: int): (r: seq<T>)
    requires 0 <= n <= |s| && ValidChoices(choices, |s|)
    ensures |r| == |s| && multiset(r) == multiset(s)
    ensures n <= 1 ==> r == s
    decreases n
  {
    if n <= 1 then s else Shuffled(Swap(s, n - 1, choices[n - 1]), choices, n - 1)
  }

  /** Util.shuffle, with the random draws of Math.random supplied as choices. */
  method Shuffle<T>(a: array<T>, choices: seq<int>)
    requires ValidChoices(choices, a.Length)
    modifies a
    ensures a[..] == Shuffled(old(a[..]), choices, a.Length)
    ensures multiset(a[..]) == multiset(old(a[..]))
    ensures a.Length <= 1 ==> a[..] == old(a[..])
  {
    var i := a.Length - 1;
    while i > 0
      invariant -1 <= i < a.Length
      invariant Shuffled(a[..], choices, i + 1) == Shuffled(old(a[..]), choices, a.Length)
    {
      SwapElements(a, i, choices[i]);
      i := i - 1;
    }
    ghost var r := Shuffled(old(a[..]), choices, a.Length);
    assert a[..] == r && multiset(r) == multiset(old(a[..]));
  }

  /** `[array[i], array[j]] = [array[j], array[i]]`. */
  method SwapElements<T>(a: array<T>, i: int, j: int)
    requires 0 <= i < a.Length && 0 <= j < a.Length
    modifies a
    ensures a[..] == Swap(old(a[..]), i, j)
  {
    ghost var before := a[..];
    a[i], a[j] := a[j], a[i];
    SwapIsArraySwap(before, a[..], i, j);
  }

  /** Array.prototype.reverse, on a value: the elements in the opposite order. */
  function Reversed<T>(s: seq<T>): (r: seq<T>)
    ensures |r| == |s|
    ensures forall i :: 0 <= i < |s| ==> r[i] == s[|s| - 1 - i]
  {
    if |s| == 0 then [] else Reversed(s[1..]) + [s[0]]
  }

  /** Reversing keeps every element, as often as it occurs. */
  lemma {:induction false} ReversedMultiset<T>(s: seq<T>)
    ensures multiset(Reversed(s)) == multiset(s)
  {
    if |s| > 0 {
      ReversedMultiset(s[1..]);
      assert s == [s[0]] + s[1..];
    }
  }
}
