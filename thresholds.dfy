/**
 * Threshold sets and the counts that define a quantization code.
 *
 * A threshold set for C channels is one flat sequence; channel e owns the
 * 255 values th[e * 255 .. (e + 1) * 255], sorted ascending.  Thresholds and
 * inputs are only ever compared, so they are modelled as integers.
 *
 * Two counts give a code: the reference kernel counts thresholds strictly
 * below the input, while upper_bound counts thresholds at most the input.
 * Every kernel emits -128 plus one of these counts.
 */
module Thresholds {

  /** Number of thresholds per channel. */
  const ChannelSize: nat := 255

  /** Offset that moves a count into the signed 8-bit range. */
  const CodeBase: int := -128

  predicate Sorted(s: seq<int>)
  {
    forall i, j :: 0 <= i < j < |s| ==> s[i] <= s[j]
  }

  /** The thresholds cover C channels (the caller's channel count). */
  predicate WellFormed(th: seq<int>, c: nat)
  {
    c > 0 && c * ChannelSize <= |th|
  }

  /** The 255 thresholds of channel e. */
  function Channel(th: seq<int>, e: nat): (ch: seq<int>)
    requires (e + 1) * ChannelSize <= |th|
    ensures |ch| == ChannelSize
  {
    th[e * ChannelSize .. (e + 1) * ChannelSize]
  }

  predicate SortedChannels(th: seq<int>, c: nat)
    requires WellFormed(th, c)
  {
    forall e :: 0 <= e < c ==> Sorted(Channel(th, e))
  }

  // ---------------------------------------------------------------------
  // Counting

  /** Number of elements of s strictly below v. */
  function CountBelow(s: seq<int>, v: int): (n: nat)
    ensures n <= |s|
  {
    if s == [] then 0
    else CountBelow(s[..|s| - 1], v) + (if s[|s| - 1] < v then 1 else 0)
  }

  /** Number of elements of s at most v. */
  function CountAtMost(s: seq<int>, v: int): (n: nat)
    ensures n <= |s|
  {
    if s == [] then 0
    else CountAtMost(s[..|s| - 1], v) + (if s[|s| - 1] <= v then 1 else 0)
  }

  /** Number of elements of s equal to v. */
  function CountEqual(s: seq<int>, v: int): (n: nat)
    ensures n <= |s|
  {
    if s == [] then 0
    else CountEqual(s[..|s| - 1], v) + (if s[|s| - 1] == v then 1 else 0)
  }

  /** The two counts differ by exactly the thresholds equal to v. */
  lemma {:induction false} CountAtMostIsBelowPlusEqual(s: seq<int>, v: int)
    ensures CountAtMost(s, v) == CountBelow(s, v) + CountEqual(s, v)
  {
    if s != [] {
      CountAtMostIsBelowPlusEqual(s[..|s| - 1], v);
    }
  }

  /** No element equals v exactly when the equal-count is zero. */
  lemma {:induction false} CountEqualZero(s: seq<int>, v: int)
    ensures CountEqual(s, v) == 0 <==> forall i :: 0 <= i < |s| ==> s[i] != v
  {
    if s != [] {
      var init := s[..|s| - 1];
      CountEqualZero(init, v);
      assert forall i :: 0 <= i < |init| ==> init[i] == s[i];
    }
  }

  lemma {:induction false} CountBelowMonotone(s: seq<int>, a: int, b: int)
    requires a <= b
    ensures CountBelow(s, a) <= CountBelow(s, b)
  {
    if s != [] {
      CountBelowMonotone(s[..|s| - 1], a, b);
    }
  }

  lemma {:induction false} CountAtMostMonotone(s: seq<int>, a: int, b: int)
    requires a <= b
    ensures CountAtMost(s, a) <= CountAtMost(s, b)
  {
    if s != [] {
      CountAtMostMonotone(s[..|s| - 1], a, b);
    }
  }

  lemma {:induction false} CountAtMostAppend(s: seq<int>, t: seq<int>, v: int)
    ensures CountAtMost(s + t, v) == CountAtMost(s, v) + CountAtMost(t, v)
  {
    if t != [] {
      assert (s + t)[..|s + t| - 1] == s + t[..|t| - 1];
      CountAtMostAppend(s, t[..|t| - 1], v);
    } else {
      assert s + t == s;
    }
  }

  lemma {:induction false} CountBelowAppend(s: seq<int>, t: seq<int>, v: int)
    ensures CountBelow(s + t, v) == CountBelow(s, v) + CountBelow(t, v)
  {
    if t != [] {
      assert (s + t)[..|s + t| - 1] == s + t[..|t| - 1];
      CountBelowAppend(s, t[..|t| - 1], v);
    } else {
      assert s + t == s;
    }
  }

  /** CountAtMost(s, v) is |s| when every element is at most v, 0 when every element exceeds v. */
  lemma {:induction false} CountAtMostExtremes(s: seq<int>, v: int)
    ensures (forall i :: 0 <= i < |s| ==> s[i] <= v) ==> CountAtMost(s, v) == |s|
    ensures (forall i :: 0 <= i < |s| ==> v < s[i]) ==> CountAtMost(s, v) == 0
  {
    if s != [] {
      CountAtMostExtremes(s[..|s| - 1], v);
    }
  }

  /** CountBelow(s, v) is |s| when every element is below v, 0 when none is. */
  lemma {:induction false} CountBelowExtremes(s: seq<int>, v: int)
    ensures (forall i :: 0 <= i < |s| ==> s[i] < v) ==> CountBelow(s, v) == |s|
    ensures (forall i :: 0 <= i < |s| ==> v <= s[i]) ==> CountBelow(s, v) == 0
  {
    if s != [] {
      CountBelowExtremes(s[..|s| - 1], v);
    }
  }

  // ---------------------------------------------------------------------
  // Partition points

  /** p splits s into a prefix of elements at most v and a suffix of elements above v. */
  predicate IsUpperBound(s: seq<int>, v: int, p: int)
  {
    0 <= p <= |s|
    && (forall j :: 0 <= j < p ==> s[j] <= v)
    && (forall j :: p <= j < |s| ==> v < s[j])
  }

  /** p splits s into a prefix of elements below v and a suffix of elements at least v. */
  predicate IsLowerBound(s: seq<int>, v: int, p: int)
  {
    0 <= p <= |s|
    && (forall j :: 0 <= j < p ==> s[j] < v)
    && (forall j :: p <= j < |s| ==> v <= s[j])
  }

  /** A split point of the upper-bound kind is the at-most count. */
  lemma UpperBoundIsCount(s: seq<int>, v: int, p: int)
    requires IsUpperBound(s, v, p)
    ensures p == CountAtMost(s, v)
  {
    assert s == s[..p] + s[p..];
    CountAtMostAppend(s[..p], s[p..], v);
    CountAtMostExtremes(s[..p], v);
    CountAtMostExtremes(s[p..], v);
  }

  /** A split point of the lower-bound kind is the strictly-below count. */
  lemma LowerBoundIsCount(s: seq<int>, v: int, p: int)
    requires IsLowerBound(s, v, p)
    ensures p == CountBelow(s, v)
  {
    assert s == s[..p] + s[p..];
    CountBelowAppend(s[..p], s[p..], v);
    CountBelowExtremes(s[..p], v);
    CountBelowExtremes(s[p..], v);
  }

  /** On a sorted sequence the at-most count is where upper_bound stops. */
  lemma {:induction false} CountIsUpperBound(s: seq<int>, v: int)
    requires Sorted(s)
    ensures IsUpperBound(s, v, CountAtMost(s, v))
  {
    if s != [] {
      var init := s[..|s| - 1];
      CountIsUpperBound(init, v);
      if s[|s| - 1] <= v {
        CountAtMostExtremes(init, v);
      }
    }
  }

  /** On a sorted sequence the strictly-below count is the first position holding an element >= v. */
  lemma {:induction false} CountIsLowerBound(s: seq<int>, v: int)
    requires Sorted(s)
    ensures IsLowerBound(s, v, CountBelow(s, v))
  {
    if s != [] {
      var init := s[..|s| - 1];
      CountIsLowerBound(init, v);
      if s[|s| - 1] < v {
        CountBelowExtremes(init, v);
      }
    }
  }

  /**
   * std::upper_bound over a sorted range: the first position whose element
   * is greater than v, given by its standard contract.
   */
  function StdUpperBound(s: seq<int>, v: int): (p: nat)
    requires Sorted(s)
    ensures IsUpperBound(s, v, p)
  {
    CountIsUpperBound(s, v);
    CountAtMost(s, v)
  }

  // ---------------------------------------------------------------------
  // Codes

  /** Code of the reference kernel: -128 plus the thresholds strictly below v. */
  function ReferenceCode(th: seq<int>, e: nat, v: int): (code: int)
    requires (e + 1) * ChannelSize <= |th|
    ensures -128 <= code <= 127
  {
    CodeBase + CountBelow(Channel(th, e), v)
  }

  /** Code of the upper_bound kernels: -128 plus the thresholds at most v. */
  function UpperBoundCode(th: seq<int>, e: nat, v: int): (code: int)
    requires (e + 1) * ChannelSize <= |th|
    ensures -128 <= code <= 127
  {
    CodeBase + CountAtMost(Channel(th, e), v)
  }

  /**
   * Conversion of an int to int8_t: the value modulo 256, in [-128, 127].
   */
  function ToInt8(x: int): (r: int)
    ensures -128 <= r <= 127
    ensures (x - r) % 256 == 0
    ensures -128 <= x <= 127 ==> r == x
  {
    (x + 128) % 256 - 128
  }

  /** The reference code never decreases as the input grows, sorted or not. */
  lemma ReferenceCodeMonotone(th: seq<int>, e: nat, a: int, b: int)
    requires (e + 1) * ChannelSize <= |th|
    requires a <= b
    ensures ReferenceCode(th, e, a) <= ReferenceCode(th, e, b)
  {
    CountBelowMonotone(Channel(th, e), a, b);
  }

  /** Same for the upper_bound code. */
  lemma UpperBoundCodeMonotone(th: seq<int>, e: nat, a: int, b: int)
    requires (e + 1) * ChannelSize <= |th|
    requires a <= b
    ensures UpperBoundCode(th, e, a) <= UpperBoundCode(th, e, b)
  {
    CountAtMostMonotone(Channel(th, e), a, b);
  }

  /**
   * The upper_bound code exceeds the reference code by the number of
   * thresholds equal to the input; the two agree exactly when the input
   * equals no threshold of its channel.
   */
  lemma UpperBoundVsReference(th: seq<int>, e: nat, v: int)
    requires (e + 1) * ChannelSize <= |th|
    ensures UpperBoundCode(th, e, v) == ReferenceCode(th, e, v) + CountEqual(Channel(th, e), v)
    ensures UpperBoundCode(th, e, v) == ReferenceCode(th, e, v)
            <==> forall i :: 0 <= i < ChannelSize ==> Channel(th, e)[i] != v
  {
    CountAtMostIsBelowPlusEqual(Channel(th, e), v);
    CountEqualZero(Channel(th, e), v);
  }

  // ---------------------------------------------------------------------
  // Index arithmetic for the batch layouts

  lemma MulAtLeast(d: int, c: int)
    requires c > 0 && d >= 1
    ensures c * d >= c
  {
    if d > 1 {
      MulAtLeast(d - 1, c);
      assert c * d == c * (d - 1) + c;
    }
  }

  lemma MulMonotone(a: int, b: int, c: int)
    requires 0 <= a <= b && c > 0
    ensures a * c <= b * c
  {
    if a < b {
      MulAtLeast(b - a, c);
      assert b * c == (b - a) * c + a * c;
    }
  }

  /** Euclidean division is unique. */
  lemma DivModUnique(y: int, q: int, r: int, c: int)
    requires c > 0 && 0 <= r < c && y == q * c + r
    ensures y / c == q && y % c == r
  {
    var d := q - y / c;
    assert y == c * (y / c) + y % c;
    assert c * d == y % c - r;
    if d >= 1 {
      MulAtLeast(d, c);
    } else if d <= -1 {
      MulAtLeast(-d, c);
    }
  }

  /** Position b * c + e of a layout with rows of c holds row b, column e. */
  lemma SplitIndex(b: nat, e: nat, c: nat)
    requires e < c
    ensures (b * c + e) / c == b && (b * c + e) % c == e
  {
    DivModUnique(b * c + e, b, e, c);
  }

  /** Row b, column e of an n-by-c layout lies inside it. */
  lemma IndexInRange(b: nat, e: nat, n: nat, c: nat)
    requires b < n && e < c
    ensures b * c + e < n * c
  {
    assert n * c == (n - 1 - b) * c + b * c + c;
    if n - 1 - b >= 1 {
      MulAtLeast(n - 1 - b, c);
    }
  }

  /** A position below n * c lies in one of the n rows. */
  lemma RowInRange(k: nat, n: nat, c: nat)
    requires c > 0 && k < n * c
    ensures k / c < n
  {
    assert k == c * (k / c) + k % c;
    if k / c >= n {
      MulMonotone(n, k / c, c);
    }
  }

  /** Number of complete samples of c values in a batch of length len. */
  function Samples(len: nat, c: nat): (n: nat)
    requires c > 0
  {
    len / c
  }

  lemma WholeSamplesFit(len: nat, c: nat)
    requires c > 0
    ensures Samples(len, c) * c <= len
    ensures len - Samples(len, c) * c < c
  {
    assert len == c * (len / c) + len % c;
  }

  function Min(a: int, b: int): (m: int)
    ensures m <= a && m <= b && (m == a || m == b)
  {
    if a <= b then a else b
  }

  function Max(a: int, b: int): (m: int)
    ensures a <= m && b <= m && (m == a || m == b)
  {
    if a >= b then a else b
  }

  /** Number of values after the last complete sample: fewer than one sample. */
  function Leftover(len: nat, c: nat): (r: nat)
    requires c > 0
    ensures Samples(len, c) * c + r == len && r < c
  {
    WholeSamplesFit(len, c);
    len - Samples(len, c) * c
  }

  // ---------------------------------------------------------------------
  // Output layouts

  /** Appending the next element of full to a prefix of full gives a longer prefix. */
  lemma PrefixStep(s: seq<int>, full: seq<int>, x: int)
    requires |s| < |full| && s == full[..|s|] && full[|s|] == x
    ensures s + [x] == full[..|s| + 1]
  {
  }

  function Repeat(x: int, n: nat): (r: seq<int>)
    ensures |r| == n && forall i :: 0 <= i < n ==> r[i] == x
  {
    seq(n, _ => x)
  }

  /** Batch-major reference codes: position k holds the code of inp[k] in channel k % c. */
  function ReferenceCodes(th: seq<int>, c: nat, inp: seq<int>): (r: seq<int>)
    requires WellFormed(th, c)
  {
    WholeSamplesFit(|inp|, c);
    seq(Samples(|inp|, c) * c, k requires 0 <= k < Samples(|inp|, c) * c =>
      ReferenceCode(th, k % c, inp[k]))
  }

  /** Batch-major upper_bound codes, laid out like ReferenceCodes. */
  function UpperBoundCodes(th: seq<int>, c: nat, inp: seq<int>): (r: seq<int>)
    requires WellFormed(th, c)
  {
    WholeSamplesFit(|inp|, c);
    seq(Samples(|inp|, c) * c, k requires 0 <= k < Samples(|inp|, c) * c =>
      UpperBoundCode(th, k % c, inp[k]))
  }

  /**
   * Channel-major upper_bound codes: with n samples, position k holds the
   * code of sample k % n in channel k / n.
   */
  function ChannelMajorCodes(th: seq<int>, c: nat, inp: seq<int>): (r: seq<int>)
    requires WellFormed(th, c)
  {
    var n := Samples(|inp|, c);
    WholeSamplesFit(|inp|, c);
    seq(n * c, k requires 0 <= k < n * c =>
      assert n > 0 && k / n < c by { RowInRange(k, c, n); }
      assert (k % n) * c + k / n < |inp| by { IndexInRange(k % n, k / n, n, c); }
      UpperBoundCode(th, k / n, inp[(k % n) * c + k / n]))
  }

  /** Layout sizes and the batch-major position of sample b, channel e. */
  lemma CodesAt(th: seq<int>, c: nat, inp: seq<int>, b: nat, e: nat)
    requires WellFormed(th, c)
    requires b < Samples(|inp|, c) && e < c
    ensures |ReferenceCodes(th, c, inp)| == |UpperBoundCodes(th, c, inp)| == Samples(|inp|, c) * c
    ensures b * c + e < |ReferenceCodes(th, c, inp)| && b * c + e < |inp|
    ensures ReferenceCodes(th, c, inp)[b * c + e] == ReferenceCode(th, e, inp[b * c + e])
    ensures UpperBoundCodes(th, c, inp)[b * c + e] == UpperBoundCode(th, e, inp[b * c + e])
  {
    IndexInRange(b, e, Samples(|inp|, c), c);
    WholeSamplesFit(|inp|, c);
    SplitIndex(b, e, c);
  }

  /**
   * The channel-major layout is the transpose of the batch-major one:
   * position e * n + b holds what batch-major puts at b * c + e.
   */
  lemma ChannelMajorIsTranspose(th: seq<int>, c: nat, inp: seq<int>, b: nat, e: nat)
    requires WellFormed(th, c)
    requires b < Samples(|inp|, c) && e < c
    ensures |ChannelMajorCodes(th, c, inp)| == |UpperBoundCodes(th, c, inp)|
    ensures e * Samples(|inp|, c) + b < |ChannelMajorCodes(th, c, inp)|
    ensures b * c + e < |UpperBoundCodes(th, c, inp)|
    ensures ChannelMajorCodes(th, c, inp)[e * Samples(|inp|, c) + b]
            == UpperBoundCodes(th, c, inp)[b * c + e]
  {
    var n := Samples(|inp|, c);
    CodesAt(th, c, inp, b, e);
    IndexInRange(e, b, c, n);
    SplitIndex(e, b, n);
    assert c * n == n * c;
  }

  /**
   * Reference and upper_bound kernels produce the same codes exactly when
   * no input of a complete sample equals a threshold of its channel.
   */
  lemma CodesAgreeIffNoTies(th: seq<int>, c: nat, inp: seq<int>)
    requires WellFormed(th, c)
    ensures UpperBoundCodes(th, c, inp) == ReferenceCodes(th, c, inp)
            <==> forall k :: 0 <= k < Samples(|inp|, c) * c ==> CountEqual(Channel(th, k % c), inp[k]) == 0
  {
    var n := Samples(|inp|, c);
    WholeSamplesFit(|inp|, c);
    forall k | 0 <= k < n * c
      ensures UpperBoundCode(th, k % c, inp[k])
              == ReferenceCode(th, k % c, inp[k]) + CountEqual(Channel(th, k % c), inp[k])
    {
      UpperBoundVsReference(th, k % c, inp[k]);
    }
    if UpperBoundCodes(th, c, inp) == ReferenceCodes(th, c, inp) {
      forall k | 0 <= k < n * c
        ensures CountEqual(Channel(th, k % c), inp[k]) == 0
      {
        assert UpperBoundCodes(th, c, inp)[k] == ReferenceCodes(th, c, inp)[k];
      }
    }
  }
}
