/** The byte histogram and probability distribution that `check_entropy`
    hands to Shannon's entropy formula.  The formula itself (base-2
    logarithms over floating point) is a parameter `entropyOf`. */
module Entropy {
  import opened Values

  /** Number of times `b` occurs in `s`. */
  function Occurrences(s: seq<byte>, b: byte): (n: nat)
    ensures n == multiset(s)[b]
    ensures n <= |s|
    ensures n > 0 <==> b in s
  {
    if s == [] then 0
    else
      assert s == s[..|s| - 1] + [s[|s| - 1]];
      Occurrences(s[..|s| - 1], b) + (if s[|s| - 1] == b then 1 else 0)
  }

  /** The keys of `Counter(s)`, in the order a Counter keeps them: the order
      in which each byte value first occurs in `s`. */
  function Keys(s: seq<byte>): (d: seq<byte>)
    ensures forall b :: b in d <==> b in s
    ensures forall i, j :: 0 <= i < j < |d| ==> d[i] != d[j]
  {
    if s == [] then []
    else
      assert s == s[..|s| - 1] + [s[|s| - 1]];
      var d := Keys(s[..|s| - 1]);
      if s[|s| - 1] in d then d else d + [s[|s| - 1]]
  }

  /** `Counter(s).values()`: the count of each key, in key order. */
  function Tally(s: seq<byte>): (c: seq<nat>)
    ensures |c| == |Keys(s)|
    ensures forall i :: 0 <= i < |c| ==> 0 < c[i] <= |s|
  {
    seq(|Keys(s)|, i requires 0 <= i < |Keys(s)| => Occurrences(s, Keys(s)[i]))
  }

  /** Each count is the number of occurrences of its key. */
  lemma TallyCounts(s: seq<byte>)
    ensures forall i :: 0 <= i < |Tally(s)| ==> Tally(s)[i] == multiset(s)[Keys(s)[i]]
  {
  }

  /** `dist` of `check_entropy`: every count divided by the length of `s`. */
  function Distribution(s: seq<byte>): (dist: seq<real>)
    ensures |dist| == |Keys(s)|
    ensures forall i :: 0 <= i < |dist| ==> 0.0 < dist[i] <= 1.0
  {
    if s == [] then [] else
    var c := Tally(s);
    ScaledBounds(c, |s|);
    Scaled(c, |s|)
  }

  lemma ScaledBounds(c: seq<nat>, n: nat)
    requires n > 0 && forall i :: 0 <= i < |c| ==> 0 < c[i] <= n
    ensures forall i :: 0 <= i < |c| ==> 0.0 < Scaled(c, n)[i] <= 1.0
  {
    forall i | 0 <= i < |c| ensures 0.0 < Scaled(c, n)[i] <= 1.0 {
      Ratio(c[i], n);
    }
  }

  /** Each entry of `c` divided by `n`. */
  function Scaled(c: seq<nat>, n: nat): (d: seq<real>)
    requires n > 0
    ensures |d| == |c| && forall i :: 0 <= i < |c| ==> d[i] == c[i] as real / n as real
  {
    seq(|c|, i requires 0 <= i < |c| => c[i] as real / n as real)
  }

  /** `check_entropy(s)`: the entropy formula applied to the distribution.
      Empty input gives the formula's value at the empty distribution, and a
      buffer of one repeated byte its value at [1] (0 for Shannon's). */
  function CheckEntropy(s: seq<byte>, entropyOf: seq<real> -> real): (h: real)
    ensures s == [] ==> h == entropyOf([])
    ensures |s| > 0 && (forall i :: 0 <= i < |s| ==> s[i] == s[0]) ==> h == entropyOf([1.0])
  {
    if |s| > 0 && forall i :: 0 <= i < |s| ==> s[i] == s[0] then
      RepeatedByteDistribution(s);
      entropyOf(Distribution(s))
    else
      entropyOf(Distribution(s))
  }

  function Sum(c: seq<nat>): nat
  {
    if c == [] then 0 else Sum(c[..|c| - 1]) + c[|c| - 1]
  }

  function RealSum(d: seq<real>): real
  {
    if d == [] then 0.0 else RealSum(d[..|d| - 1]) + d[|d| - 1]
  }

  lemma {:induction false} SumIncrement(c: seq<nat>, p: nat)
    requires p < |c|
    ensures Sum(c[p := c[p] + 1]) == Sum(c) + 1
  {
    var c' := c[p := c[p] + 1];
    if p < |c| - 1 {
      assert c'[..|c'| - 1] == c[..|c| - 1][p := c[p] + 1];
      SumIncrement(c[..|c| - 1], p);
    } else {
      assert c'[..|c'| - 1] == c[..|c| - 1];
    }
  }

  lemma OccurrencesSnoc(s: seq<byte>, b: byte, x: byte)
    ensures Occurrences(s + [b], x) == Occurrences(s, x) + (if x == b then 1 else 0)
  {
    assert (s + [b])[..|s|] == s;
  }

  /** Appending a byte already seen adds one to its count. */
  lemma TallySeen(s: seq<byte>, b: byte, p: nat)
    requires p < |Keys(s)| && Keys(s)[p] == b
    ensures Tally(s + [b]) == Tally(s)[p := Tally(s)[p] + 1]
  {
    assert (s + [b])[..|s|] == s;
    assert Keys(s + [b]) == Keys(s);
    forall i | 0 <= i < |Keys(s)| ensures Tally(s + [b])[i] == Tally(s)[p := Tally(s)[p] + 1][i] {
      OccurrencesSnoc(s, b, Keys(s)[i]);
    }
  }

  /** Appending a new byte adds a count of one at the end. */
  lemma TallyNew(s: seq<byte>, b: byte)
    requires b !in Keys(s)
    ensures Tally(s + [b]) == Tally(s) + [1]
  {
    assert (s + [b])[..|s|] == s;
    assert Keys(s + [b]) == Keys(s) + [b];
    forall i | 0 <= i < |Keys(s)| + 1 ensures Tally(s + [b])[i] == (Tally(s) + [1])[i] {
      OccurrencesSnoc(s, b, Keys(s + [b])[i]);
    }
  }

  /** The histogram accounts for every byte: its counts add up to the length. */
  lemma {:induction false} TallySum(s: seq<byte>)
    ensures Sum(Tally(s)) == |s|
  {
    if s != [] {
      var s0, b := s[..|s| - 1], s[|s| - 1];
      assert s == s0 + [b];
      TallySum(s0);
      var k0, c0 := Keys(s0), Tally(s0);
      if b in k0 {
        var p :| 0 <= p < |k0| && k0[p] == b;
        TallySeen(s0, b, p);
        SumIncrement(c0, p);
      } else {
        TallyNew(s0, b);
        assert (c0 + [1])[..|c0|] == c0;
      }
    }
  }

  lemma {:induction false} ScaledSum(c: seq<nat>, n: nat)
    requires n > 0
    ensures RealSum(Scaled(c, n)) == Sum(c) as real / n as real
  {
    var d := Scaled(c, n);
    if c != [] {
      var c0 := c[..|c| - 1];
      var d0 := Scaled(c0, n);
      assert d[..|d| - 1] == d0;
      ScaledSum(c0, n);
      AddFractions(Sum(c0) as real, c[|c| - 1] as real, n as real);
    }
  }

  lemma AddFractions(x: real, y: real, n: real)
    requires n > 0.0
    ensures x / n + y / n == (x + y) / n
  {
  }

  /** For a non-empty input the distribution is a probability distribution. */
  lemma DistributionSumsToOne(s: seq<byte>)
    requires |s| > 0
    ensures RealSum(Distribution(s)) == 1.0
  {
    var c, n := Tally(s), |s|;
    assert Distribution(s) == Scaled(c, n);
    ScaledSum(c, n);
    TallySum(s);
    Ratio(n, n);
  }

  /** An empty input has an empty histogram and distribution. */
  lemma EmptyDistribution()
    ensures Keys([]) == [] && Distribution([]) == []
  {
  }

  lemma {:induction false} RepeatedByteKeys(s: seq<byte>)
    requires |s| > 0
    requires forall i :: 0 <= i < |s| ==> s[i] == s[0]
    ensures Keys(s) == [s[0]] && Occurrences(s, s[0]) == |s|
  {
    if |s| > 1 {
      var s0 := s[..|s| - 1];
      assert s0[0] == s[0];
      RepeatedByteKeys(s0);
    }
  }

  /** A buffer of one repeated byte has the one-point distribution [1]. */
  lemma RepeatedByteDistribution(s: seq<byte>)
    requires |s| > 0
    requires forall i :: 0 <= i < |s| ==> s[i] == s[0]
    ensures Distribution(s) == [1.0]
  {
    RepeatedByteKeys(s);
    var n := |s|;
    assert Tally(s) == [n];
    assert Distribution(s) == Scaled([n], n);
    Ratio(n, n);
  }
}
