/**
 * The naive kernels: a linear strictly-below count per value
 * (referenceInner), a batch loop over it (referenceOuter), and a scan that
 * stops at the first threshold not below the input (multithreshold).
 */
module Naive {
  import opened Thresholds

  /** referenceInner: -128 plus the number of channel-nf thresholds strictly below accu. */
  method ReferenceInner(th: seq<int>, nf: nat, accu: int) returns (result: int)
    requires (nf + 1) * ChannelSize <= |th|
    ensures result == ReferenceCode(th, nf, accu)
  {
    result := CodeBase;
    var base := nf * ChannelSize;
    for i := 0 to ChannelSize
      invariant result == CodeBase + CountBelow(th[base .. base + i], accu)
    {
      assert th[base .. base + i + 1][..i] == th[base .. base + i];
      result := result + (if th[base + i] < accu then 1 else 0);
    }
  }

  /**
   * referenceOuter: one int8 code per value of every complete sample, in
   * batch-major order; a trailing partial sample is dropped.
   */
  method ReferenceOuter(th: seq<int>, elemcount: nat, inp: seq<int>) returns (ret: seq<int>)
    requires WellFormed(th, elemcount)
    ensures ret == ReferenceCodes(th, elemcount, inp)
  {
    ret := [];
    var samples := |inp| / elemcount;
    WholeSamplesFit(|inp|, elemcount);
    for batchindex := 0 to samples
      invariant |ret| == batchindex * elemcount <= samples * elemcount
      invariant ret == ReferenceCodes(th, elemcount, inp)[..|ret|]
    {
      var start := batchindex * elemcount;
      for elemindex := 0 to elemcount
        invariant |ret| == start + elemindex <= samples * elemcount
        invariant ret == ReferenceCodes(th, elemcount, inp)[..|ret|]
      {
        CodesAt(th, elemcount, inp, batchindex, elemindex);
        var inner := ReferenceInner(th, elemindex, inp[batchindex * elemcount + elemindex]);
        ret := ret + [ToInt8(inner)];
      }
      assert start + elemcount == (batchindex + 1) * elemcount;
      MulMonotone(batchindex + 1, samples, elemcount);
    }
  }

  /** First position of s whose element is at least v, or |s| when there is none. */
  function FirstAtLeast(s: seq<int>, v: int): (i: nat)
    ensures i <= |s|
    ensures forall j :: 0 <= j < i ==> s[j] < v
    ensures i < |s| ==> v <= s[i]
  {
    if s == [] then 0
    else if v <= s[0] then 0
    else 1 + FirstAtLeast(s[1..], v)
  }

  /**
   * Code of the naive scan as written: -128 plus the first position whose
   * threshold is >= v, and -128 when the scan runs off the end.
   */
  function NaiveCode(th: seq<int>, e: nat, v: int): (code: int)
    requires (e + 1) * ChannelSize <= |th|
  {
    var i := FirstAtLeast(Channel(th, e), v);
    if i < ChannelSize then CodeBase + i else CodeBase
  }

  /** Batch-major naive codes. */
  function NaiveCodes(th: seq<int>, c: nat, inp: seq<int>): (codes: seq<int>)
    requires WellFormed(th, c)
  {
    WholeSamplesFit(|inp|, c);
    seq(Samples(|inp|, c) * c, k requires 0 <= k < Samples(|inp|, c) * c =>
      NaiveCode(th, k % c, inp[k]))
  }

  lemma NaiveCodesAt(th: seq<int>, c: nat, inp: seq<int>, b: nat, e: nat)
    requires WellFormed(th, c)
    requires b < Samples(|inp|, c) && e < c
    ensures |NaiveCodes(th, c, inp)| == Samples(|inp|, c) * c
    ensures b * c + e < |NaiveCodes(th, c, inp)| && b * c + e < |inp|
    ensures NaiveCodes(th, c, inp)[b * c + e] == NaiveCode(th, e, inp[b * c + e])
  {
    CodesAt(th, c, inp, b, e);
    SplitIndex(b, e, c);
  }

  /** The inner scan of multithreshold as written: the result stays -128 unless the scan breaks. */
  method FirstAtLeastScan(th: seq<int>, e: nat, v: int) returns (result: int)
    requires (e + 1) * ChannelSize <= |th|
    ensures result == NaiveCode(th, e, v)
  {
    var ch := Channel(th, e);
    result := CodeBase;
    for i := 0 to ChannelSize
      invariant forall j :: 0 <= j < i ==> ch[j] < v
      invariant result == CodeBase
    {
      if ch[i] >= v {
        result := result + i;
        break;
      }
    }
  }

  /** multithreshold: the naive codes of every complete sample, in batch-major order. */
  method Multithreshold(th: seq<int>, elemcount: nat, inp: seq<int>) returns (ret: seq<int>)
    requires WellFormed(th, elemcount)
    ensures ret == NaiveCodes(th, elemcount, inp)
  {
    ret := [];
    var samples := |inp| / elemcount;
    WholeSamplesFit(|inp|, elemcount);
    for batchindex := 0 to samples
      invariant |ret| == batchindex * elemcount <= samples * elemcount
      invariant ret == NaiveCodes(th, elemcount, inp)[..|ret|]
    {
      var start := batchindex * elemcount;
      for elemindex := 0 to elemcount
        invariant |ret| == start + elemindex <= samples * elemcount
        invariant ret == NaiveCodes(th, elemcount, inp)[..|ret|]
      {
        NaiveCodesAt(th, elemcount, inp, batchindex, elemindex);
        var result := FirstAtLeastScan(th, elemindex, inp[batchindex * elemcount + elemindex]);
        ret := ret + [ToInt8(result)];
      }
      assert start + elemcount == (batchindex + 1) * elemcount;
      MulMonotone(batchindex + 1, samples, elemcount);
    }
  }

  /** On a sorted sequence, the first position holding an element >= v is the strictly-below count. */
  lemma FirstAtLeastIsCountBelow(s: seq<int>, v: int)
    requires Sorted(s)
    ensures FirstAtLeast(s, v) == CountBelow(s, v)
  {
    var i := FirstAtLeast(s, v);
    assert IsLowerBound(s, v, i);
    LowerBoundIsCount(s, v, i);
  }

  /**
   * For a sorted channel with some threshold >= v, the scan stops at the
   * strictly-below count, so the naive and reference codes agree.
   */
  lemma NaiveAgreesWhenCovered(th: seq<int>, e: nat, v: int)
    requires (e + 1) * ChannelSize <= |th|
    requires Sorted(Channel(th, e))
    requires exists i :: 0 <= i < ChannelSize && v <= Channel(th, e)[i]
    ensures NaiveCode(th, e, v) == ReferenceCode(th, e, v)
  {
    FirstAtLeastIsCountBelow(Channel(th, e), v);
  }

  /**
   * When every threshold of the channel is below v, the scan never breaks
   * and yields -128, while the reference kernel yields 127.
   */
  lemma NaiveFallsThrough(th: seq<int>, e: nat, v: int)
    requires (e + 1) * ChannelSize <= |th|
    requires forall i :: 0 <= i < ChannelSize ==> Channel(th, e)[i] < v
    ensures NaiveCode(th, e, v) == CodeBase
    ensures ReferenceCode(th, e, v) == 127
  {
    CountBelowExtremes(Channel(th, e), v);
  }

  /**
   * The batch kernels agree when the channels are sorted and no value of a
   * complete sample exceeds the largest threshold of its channel.
   */
  lemma NaiveMatchesReference(th: seq<int>, c: nat, inp: seq<int>)
    requires WellFormed(th, c) && SortedChannels(th, c)
    requires forall k :: 0 <= k < Samples(|inp|, c) * c && k < |inp| ==>
               inp[k] <= Channel(th, k % c)[ChannelSize - 1]
    ensures NaiveCodes(th, c, inp) == ReferenceCodes(th, c, inp)
  {
    WholeSamplesFit(|inp|, c);
    forall k | 0 <= k < Samples(|inp|, c) * c
      ensures NaiveCode(th, k % c, inp[k]) == ReferenceCode(th, k % c, inp[k])
    {
      NaiveAgreesWhenCovered(th, k % c, inp[k]);
    }
  }

  /** The inner scan with its fall-through fixed: no threshold >= v gives -128 + 255. */
  method FirstAtLeastScanCorrected(th: seq<int>, e: nat, v: int) returns (result: int)
    requires (e + 1) * ChannelSize <= |th|
    ensures result == CodeBase + FirstAtLeast(Channel(th, e), v)
    ensures Sorted(Channel(th, e)) ==> result == ReferenceCode(th, e, v)
  {
    var ch := Channel(th, e);
    result := CodeBase + ChannelSize;
    for i := 0 to ChannelSize
      invariant forall j :: 0 <= j < i ==> ch[j] < v
      invariant result == CodeBase + ChannelSize
    {
      if ch[i] >= v {
        result := CodeBase + i;
        break;
      }
    }
    if Sorted(Channel(th, e)) {
      FirstAtLeastIsCountBelow(Channel(th, e), v);
    }
  }

  /** multithreshold with the corrected scan: equal to referenceOuter on sorted channels. */
  method MultithresholdCorrected(th: seq<int>, elemcount: nat, inp: seq<int>) returns (ret: seq<int>)
    requires WellFormed(th, elemcount) && SortedChannels(th, elemcount)
    ensures ret == ReferenceCodes(th, elemcount, inp)
  {
    ret := [];
    var samples := |inp| / elemcount;
    WholeSamplesFit(|inp|, elemcount);
    for batchindex := 0 to samples
      invariant |ret| == batchindex * elemcount <= samples * elemcount
      invariant ret == ReferenceCodes(th, elemcount, inp)[..|ret|]
    {
      var start := batchindex * elemcount;
      for elemindex := 0 to elemcount
        invariant |ret| == start + elemindex <= samples * elemcount
        invariant ret == ReferenceCodes(th, elemcount, inp)[..|ret|]
      {
        CodesAt(th, elemcount, inp, batchindex, elemindex);
        var result := FirstAtLeastScanCorrected(th, elemindex, inp[batchindex * elemcount + elemindex]);
        ret := ret + [ToInt8(result)];
      }
      assert start + elemcount == (batchindex + 1) * elemcount;
      MulMonotone(batchindex + 1, samples, elemcount);
    }
  }
}
