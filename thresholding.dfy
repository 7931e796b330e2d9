/**
 * The Python prototype of the quantizer: an explicit binary-search
 * upper_bound, a multithreshold kernel that narrows each search with the
 * previous value of the same channel, and a branch-free clamp.
 *
 * Python's floats are modelled as integers (the kernel only compares them);
 * the value -inf that starts every channel is the NegInfinity case of Last.
 */
module Thresholding {
  import opened Thresholds
  import opened IndexedWrites

  // ---------------------------------------------------------------------
  // upper_bound

  /**
   * upper_bound(li, val): binary search for the first position whose element
   * exceeds val.  Always returns a position in [0, |li|]; on a sorted list it
   * is the upper-bound split point.
   */
  method UpperBound(li: seq<int>, val: int) returns (first: nat)
    ensures first <= |li|
    ensures Sorted(li) ==> IsUpperBound(li, val, first)
  {
    var count: nat := |li|;
    first := 0;
    while count > 0
      invariant first + count <= |li|
      invariant Sorted(li) ==> forall j :: 0 <= j < first ==> li[j] <= val
      invariant Sorted(li) ==> forall j :: first + count <= j < |li| ==> val < li[j]
      decreases count
    {
      var indexptr := first;
      var step := count / 2;
      indexptr := indexptr + step;
      if !(val < li[indexptr]) {
        indexptr := indexptr + 1;
        first := indexptr;
        count := count - (step + 1);
      } else {
        count := step;
      }
    }
  }

  // ---------------------------------------------------------------------
  // Narrowed searches

  /** Every slice of a sorted sequence is sorted. */
  lemma SortedSlice(s: seq<int>, i: nat, j: nat)
    requires Sorted(s) && i <= j <= |s|
    ensures Sorted(s[i..j])
  {
    forall a, b | 0 <= a < b < j - i
      ensures s[i..j][a] <= s[i..j][b]
    {
      assert s[i..j][a] == s[i + a] && s[i..j][b] == s[i + b];
    }
  }

  /**
   * When the first p elements are all at most v, the at-most count of v is
   * p plus the count in the suffix: searching only s[p..] loses nothing.
   */
  lemma NarrowUp(s: seq<int>, p: nat, v: int)
    requires p <= |s|
    requires forall j :: 0 <= j < p ==> s[j] <= v
    ensures CountAtMost(s, v) == p + CountAtMost(s[p..], v)
  {
    assert s == s[..p] + s[p..];
    CountAtMostAppend(s[..p], s[p..], v);
    CountAtMostExtremes(s[..p], v);
  }

  /**
   * When every element from position p on exceeds v, the at-most count of v
   * is the count in the prefix s[..p]: searching only the prefix loses nothing.
   */
  lemma NarrowDown(s: seq<int>, p: nat, v: int)
    requires p <= |s|
    requires forall j :: p <= j < |s| ==> v < s[j]
    ensures CountAtMost(s, v) == CountAtMost(s[..p], v)
  {
    assert s == s[..p] + s[p..];
    CountAtMostAppend(s[..p], s[p..], v);
    CountAtMostExtremes(s[p..], v);
  }

  // ---------------------------------------------------------------------
  // multithreshold

  /** The previous value of a channel; the scan starts from -inf. */
  datatype Last = NegInfinity | Value(v: int)

  /** What indexLast holds: the at-most count of the previous value, 0 for -inf. */
  function CountAtLast(ch: seq<int>, last: Last): (n: nat)
    ensures n <= |ch|
    ensures last.NegInfinity? ==> n == 0
  {
    match last
    case NegInfinity => 0
    case Value(v) => CountAtMost(ch, v)
  }

  /**
   * The search for one value of the batched branch: reuse indexLast when
   * curr equals the previous value, search the suffix from indexLast and add
   * indexLast when curr is larger, search the prefix of length indexLast when
   * it is smaller.  Each case finds the count a full search would.
   */
  method NarrowedSearch(th: seq<int>, e: nat, curr: int, last: Last, indexLast: nat)
    returns (indexCurr: nat)
    requires (e + 1) * ChannelSize <= |th| && Sorted(Channel(th, e))
    requires indexLast == CountAtLast(Channel(th, e), last)
    ensures indexCurr == CountAtMost(Channel(th, e), curr)
  {
    ghost var ch := Channel(th, e);
    indexCurr := 0;
    if last == Value(curr) {
      indexCurr := indexLast;
    } else if last.NegInfinity? || curr > last.v {
      if last.Value? {
        CountIsUpperBound(ch, last.v);
      }
      NarrowUp(ch, indexLast, curr);
      assert th[e * ChannelSize + indexLast .. (e + 1) * ChannelSize] == ch[indexLast..];
      SortedSlice(ch, indexLast, ChannelSize);
      indexCurr := UpperBound(th[e * ChannelSize + indexLast .. (e + 1) * ChannelSize], curr);
      UpperBoundIsCount(ch[indexLast..], curr, indexCurr);
      indexCurr := indexCurr + indexLast;
    } else {
      CountIsUpperBound(ch, last.v);
      NarrowDown(ch, indexLast, curr);
      assert th[e * ChannelSize .. (e + 1) * ChannelSize - (ChannelSize - indexLast)] == ch[..indexLast];
      SortedSlice(ch, 0, indexLast);
      indexCurr := UpperBound(th[e * ChannelSize .. (e + 1) * ChannelSize - (ChannelSize - indexLast)], curr);
      UpperBoundIsCount(ch[..indexLast], curr, indexCurr);
    }
  }

  /**
   * One channel of the batched branch: for each sample the search reuses
   * indexLast when the value repeats, searches only the suffix from
   * indexLast when the value grew, and only the prefix of length indexLast
   * when it shrank; the found count is added to the -128 already in place.
   */
  method NarrowedChannel(th: seq<int>, elemcount: nat, inp: seq<int>, samples: nat, e: nat,
                         ghost codes: seq<int>, prev: seq<int>) returns (ret: seq<int>)
    requires WellFormed(th, elemcount) && SortedChannels(th, elemcount) && e < elemcount
    requires samples == Samples(|inp|, elemcount) && codes == UpperBoundCodes(th, elemcount, inp)
    requires |codes| <= |inp|
    requires prev == Written(codes, elemcount, |inp|, CodeBase, e, 0)
    ensures ret == Written(codes, elemcount, |inp|, CodeBase, e + 1, 0)
  {
    ghost var ch := Channel(th, e);
    ret := prev;
    var last := NegInfinity;
    var indexLast: nat := 0;
    for batchindex := 0 to samples
      invariant ret == Written(codes, elemcount, |inp|, CodeBase, e, batchindex)
      invariant indexLast == CountAtLast(ch, last)
    {
      var k := batchindex * elemcount + e;
      assert k < |inp| by { CodesAt(th, elemcount, inp, batchindex, e); }
      var curr := inp[k];
      var indexCurr := NarrowedSearch(th, e, curr, last, indexLast);
      CountAdded(th, elemcount, inp, samples, e, codes, ret, batchindex, indexCurr);
      ret := ret[k := ret[k] + indexCurr];
      last := Value(curr);
      indexLast := indexCurr;
    }
    WrittenChannelDone(codes, elemcount, |inp|, CodeBase, samples, e);
  }

  /** Adding sample b's full count to its -128 entry writes that sample's code. */
  lemma CountAdded(th: seq<int>, elemcount: nat, inp: seq<int>, samples: nat, e: nat,
                   codes: seq<int>, ret: seq<int>, b: nat, count: int)
    requires WellFormed(th, elemcount) && e < elemcount && b < samples
    requires samples == Samples(|inp|, elemcount) && codes == UpperBoundCodes(th, elemcount, inp)
    requires |codes| <= |inp| && b * elemcount + e < |inp|
    requires ret == Written(codes, elemcount, |inp|, CodeBase, e, b)
    requires count == CountAtMost(Channel(th, e), inp[b * elemcount + e])
    ensures b * elemcount + e < |ret|
    ensures ret[b * elemcount + e := ret[b * elemcount + e] + count]
            == Written(codes, elemcount, |inp|, CodeBase, e, b + 1)
  {
    CodesAt(th, elemcount, inp, b, e);
    WrittenStep(codes, elemcount, |inp|, CodeBase, samples, e, b);
  }

  /**
   * multithreshold(elemcount, inp): an output of length |inp| filled with
   * -128, to which every complete sample adds its upper_bound count.  A
   * single-sample batch searches each full channel; larger batches use the
   * narrowed search, with the same result.  Entries of a trailing partial
   * sample stay -128.  With no channels, both loops over range(elemcount)
   * are empty, nothing is divided, and every entry stays -128.
   */
  method Multithreshold(th: seq<int>, elemcount: nat, inp: seq<int>) returns (ret: seq<int>)
    requires elemcount * ChannelSize <= |th|
    requires elemcount > 0 ==> SortedChannels(th, elemcount)
    ensures |ret| == |inp|
    ensures elemcount == 0 ==> ret == Repeat(CodeBase, |inp|)
    ensures elemcount > 0 ==>
              ret == UpperBoundCodes(th, elemcount, inp) + Repeat(CodeBase, Leftover(|inp|, elemcount))
  {
    ret := Repeat(CodeBase, |inp|);
    if elemcount == 0 {
      // range(0) is empty in either branch: the result is the initial list.
      return;
    }
    ghost var codes := UpperBoundCodes(th, elemcount, inp);
    assert |codes| + Leftover(|inp|, elemcount) == |inp|;
    WrittenNone(codes, elemcount, |inp|, CodeBase);
    if elemcount == |inp| {
      DivModUnique(|inp|, 1, 0, elemcount);
      for elemindex := 0 to elemcount
        invariant ret == Written(codes, elemcount, |inp|, CodeBase, elemindex, 0)
      {
        CodesAt(th, elemcount, inp, 0, elemindex);
        WrittenStep(codes, elemcount, |inp|, CodeBase, 1, elemindex, 0);
        var found := UpperBound(th[elemindex * ChannelSize .. (elemindex + 1) * ChannelSize], inp[elemindex]);
        UpperBoundIsCount(Channel(th, elemindex), inp[elemindex], found);
        assert 0 * elemcount + elemindex == elemindex;
        assert ret[elemindex] + found == codes[elemindex];
        ret := ret[elemindex := ret[elemindex] + found];
        WrittenChannelDone(codes, elemcount, |inp|, CodeBase, 1, elemindex);
      }
    } else {
      var samples := |inp| / elemcount;
      for elemindex := 0 to elemcount
        invariant ret == Written(codes, elemcount, |inp|, CodeBase, elemindex, 0)
      {
        ret := NarrowedChannel(th, elemcount, inp, samples, elemindex, codes, ret);
      }
    }
    WrittenAll(codes, elemcount, |inp|, CodeBase);
  }

  // ---------------------------------------------------------------------
  // Repeated samples

  /** Python's list repetition s * m. */
  function Tile(s: seq<int>, m: nat): (r: seq<int>)
    ensures |r| == m * |s|
  {
    if m == 0 then [] else Tile(s, m - 1) + s
  }

  /** Shifting a position by whole samples keeps its channel. */
  lemma ChannelOfShift(n: nat, c: nat, j: nat)
    requires c > 0
    ensures (n * c + j) % c == j % c && (n * c + j) / c == n + j / c
  {
    assert j == (j / c) * c + j % c;
    assert n * c + j == (n + j / c) * c + j % c;
    DivModUnique(n * c + j, n + j / c, j % c, c);
  }

  /** Codes of two batches laid end to end, the first of whole samples. */
  lemma {:induction false} UpperBoundCodesAppend(th: seq<int>, c: nat, a: seq<int>, b: seq<int>, n: nat)
    requires WellFormed(th, c) && |a| == n * c
    ensures UpperBoundCodes(th, c, a + b) == UpperBoundCodes(th, c, a) + UpperBoundCodes(th, c, b)
  {
    ChannelOfShift(n, c, |b|);
    ChannelOfShift(n, c, 0);
    WholeSamplesFit(|b|, c);
    var nb := Samples(|b|, c);
    assert Samples(|a + b|, c) == n + nb;
    assert (n + nb) * c == n * c + nb * c;
    var lhs := UpperBoundCodes(th, c, a + b);
    var rhs := UpperBoundCodes(th, c, a) + UpperBoundCodes(th, c, b);
    assert |lhs| == |rhs|;
    forall k | 0 <= k < |lhs|
      ensures lhs[k] == rhs[k]
    {
      if k < |a| {
        assert (a + b)[k] == a[k];
      } else {
        var j := k - |a|;
        assert j < nb * c <= |b|;
        ChannelOfShift(n, c, j);
        assert (a + b)[k] == b[j];
      }
    }
  }

  /**
   * A one-sample block repeated m times yields its codes repeated m times,
   * whichever branch of multithreshold computes them.
   */
  lemma {:induction false} RepeatedBlock(th: seq<int>, c: nat, blk: seq<int>, m: nat)
    requires WellFormed(th, c) && |blk| == c
    ensures UpperBoundCodes(th, c, Tile(blk, m)) == Tile(UpperBoundCodes(th, c, blk), m)
  {
    if m == 0 {
      assert Samples(0, c) == 0;
    } else {
      RepeatedBlock(th, c, blk, m - 1);
      UpperBoundCodesAppend(th, c, Tile(blk, m - 1), blk, m - 1);
    }
  }

  // ---------------------------------------------------------------------
  // clamp

  function Abs(x: real): (r: real)
  {
    if x < 0.0 then -x else x
  }

  /** Python's int() on a float: truncation toward zero. */
  function Trunc(x: real): (r: int)
    ensures x >= 0.0 ==> r as real <= x < r as real + 1.0
    ensures x < 0.0 ==> r as real - 1.0 < x <= r as real
  {
    if x >= 0.0 then x.Floor else -((-x).Floor)
  }

  /**
   * clamp(val, ul, ll) without comparisons: twice the minimum via
   * val + ul - |val - ul|, then the maximum with ll the same way, scaled
   * by 0.25 and truncated.  The result is val clamped into [ll, ul].
   */
  function Clamp(val: int, ul: int, ll: int): (r: int)
    ensures r == Max(ll, Min(val, ul))
  {
    var temp := (val + ul) as real - Abs((val - ul) as real);
    assert temp == 2.0 * Min(val, ul) as real;
    if ll == 0 then
      Trunc((temp + Abs(temp)) * 0.25)
    else
      var lowerTimes2 := (2 * ll) as real;
      Trunc((temp + lowerTimes2 + Abs(temp - lowerTimes2)) * 0.25)
  }

  /** With ll <= ul the clamp lands in [ll, ul] and fixes every value already there. */
  lemma ClampRange(val: int, ul: int, ll: int)
    requires ll <= ul
    ensures ll <= Clamp(val, ul, ll) <= ul
    ensures ll <= val <= ul <==> Clamp(val, ul, ll) == val
  {
  }
}
