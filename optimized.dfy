/**
 * The optimized kernels: std::upper_bound per value in batch-major order
 * (multithreshold), in channel-major order (multithresholdLE), and with
 * indexed writes into a preallocated output (multithresholdLEMT), plus the
 * integer log2 behind the thread-count heuristic.
 *
 * The OpenMP parallel loop is modelled as the sequential loop it
 * distributes; only the thread count it would request is computed.
 */
module Optimized {
  import opened Thresholds
  import opened IndexedWrites

  /** Largest value of size_t (64 bits). */
  const SizeMax: nat := 0xFFFF_FFFF_FFFF_FFFF

  function Pow2(n: nat): (p: nat)
    ensures p >= 1
  {
    if n == 0 then 1 else 2 * Pow2(n - 1)
  }

  lemma {:induction false} Pow2Monotone(a: nat, b: nat)
    requires a <= b
    ensures Pow2(a) <= Pow2(b)
  {
    if a < b {
      Pow2Monotone(a, b - 1);
    }
  }

  /** std::bit_width: the number of binary digits of v, 0 for v = 0. */
  function BitWidth(v: nat): (w: nat)
    ensures v == 0 ==> w == 0
    ensures v > 0 ==> w >= 1 && Pow2(w - 1) <= v < Pow2(w)
  {
    if v == 0 then 0 else 1 + BitWidth(v / 2)
  }

  /**
   * FinnUtils::fastLog2 on size_t: bit_width(v) - 1, which is floor(log2 v)
   * for v >= 1; for v = 0 the unsigned subtraction wraps to SIZE_MAX.
   */
  function FastLog2(v: nat): (r: nat)
    requires v <= SizeMax
    ensures v >= 1 ==> Pow2(r) <= v < Pow2(r + 1)
    ensures v == 0 ==> r == SizeMax
  {
    if v == 0 then SizeMax else BitWidth(v) - 1
  }

  /**
   * Thread count requested by multithresholdLEMT:
   * min(elemcount, procs, fastLog2(len / elemcount)).
   */
  function ThreadCount(elemcount: nat, procs: nat, len: nat): (t: nat)
    requires 0 < elemcount <= SizeMax && procs <= SizeMax && len <= SizeMax
    ensures t <= elemcount && t <= procs
    ensures t == elemcount || t == procs || t == FastLog2(len / elemcount)
    ensures len / elemcount >= 1 ==> Pow2(t) <= len / elemcount
    ensures len / elemcount == 0 ==> t == Min(elemcount, procs)
  {
    var t := Min(Min(elemcount, procs), FastLog2(len / elemcount));
    assert len / elemcount >= 1 ==> Pow2(t) <= len / elemcount by {
      if len / elemcount >= 1 {
        Pow2Monotone(t, FastLog2(len / elemcount));
      }
    }
    t
  }

  /**
   * optimized::multithreshold: per value, -128 plus the upper_bound
   * position in its channel, narrowed to int8, in batch-major order.
   */
  method Multithreshold(th: seq<int>, elemcount: nat, inp: seq<int>) returns (ret: seq<int>)
    requires WellFormed(th, elemcount) && SortedChannels(th, elemcount)
    ensures ret == UpperBoundCodes(th, elemcount, inp)
  {
    ret := [];
    var samples := |inp| / elemcount;
    WholeSamplesFit(|inp|, elemcount);
    for batchindex := 0 to samples
      invariant |ret| == batchindex * elemcount <= samples * elemcount
      invariant ret == UpperBoundCodes(th, elemcount, inp)[..|ret|]
    {
      var start := batchindex * elemcount;
      for elemindex := 0 to elemcount
        invariant |ret| == start + elemindex <= samples * elemcount
        invariant ret == UpperBoundCodes(th, elemcount, inp)[..|ret|]
      {
        CodesAt(th, elemcount, inp, batchindex, elemindex);
        var result := CodeBase + StdUpperBound(Channel(th, elemindex), inp[batchindex * elemcount + elemindex]);
        ret := ret + [ToInt8(result)];
      }
      assert start + elemcount == (batchindex + 1) * elemcount;
      MulMonotone(batchindex + 1, samples, elemcount);
    }
  }

  lemma ChannelMajorAt(th: seq<int>, c: nat, inp: seq<int>, n: nat, b: nat, e: nat, p: nat)
    requires WellFormed(th, c) && n == Samples(|inp|, c)
    requires b < n && e < c && p == e * n + b
    ensures p < |ChannelMajorCodes(th, c, inp)| && b * c + e < |inp|
    ensures ChannelMajorCodes(th, c, inp)[p] == UpperBoundCode(th, e, inp[b * c + e])
  {
    ChannelMajorIsTranspose(th, c, inp, b, e);
    CodesAt(th, c, inp, b, e);
  }

  /**
   * One channel of multithresholdLE: the codes of channel e for samples
   * 0 .. samples - 1 appended after the first e channels.
   */
  method AppendChannel(th: seq<int>, elemcount: nat, inp: seq<int>, samples: nat, e: nat,
                       prefix: seq<int>) returns (ret: seq<int>)
    requires WellFormed(th, elemcount) && SortedChannels(th, elemcount)
    requires samples == Samples(|inp|, elemcount) && e < elemcount
    requires |prefix| == e * samples
    requires prefix == ChannelMajorCodes(th, elemcount, inp)[..|prefix|]
    ensures |ret| == |prefix| + samples <= |ChannelMajorCodes(th, elemcount, inp)|
    ensures ret == ChannelMajorCodes(th, elemcount, inp)[..|ret|]
  {
    ghost var codes := ChannelMajorCodes(th, elemcount, inp);
    assert |codes| == samples * elemcount;
    if samples > 0 {
      MulMonotone(e + 1, elemcount, samples);
      assert (e + 1) * samples == |prefix| + samples;
      assert elemcount * samples == samples * elemcount;
    }
    ret := prefix;
    for batchindex := 0 to samples
      invariant |ret| == |prefix| + batchindex <= |codes|
      invariant ret == codes[..|ret|]
    {
      ChannelMajorAt(th, elemcount, inp, samples, batchindex, e, |ret|);
      var result := CodeBase + StdUpperBound(Channel(th, e), inp[batchindex * elemcount + e]);
      PrefixStep(ret, codes, ToInt8(result));
      ret := ret + [ToInt8(result)];
    }
  }

  /**
   * optimized::multithresholdLE: the same codes appended channel by
   * channel, so channel e, sample b lands at e * samples + b.  The division
   * by elemcount happens only inside the channel loop, so with no channels
   * nothing is divided and the result is empty.
   */
  method MultithresholdLE(th: seq<int>, elemcount: nat, inp: seq<int>) returns (ret: seq<int>)
    requires elemcount * ChannelSize <= |th|
    requires elemcount > 0 ==> SortedChannels(th, elemcount)
    ensures elemcount == 0 ==> ret == []
    ensures elemcount > 0 ==> ret == ChannelMajorCodes(th, elemcount, inp)
  {
    ret := [];
    for elemindex := 0 to elemcount
      invariant elemcount == 0 ==> ret == []
      invariant elemcount > 0 ==> |ret| == elemindex * Samples(|inp|, elemcount)
      invariant elemcount > 0 ==> ret == ChannelMajorCodes(th, elemcount, inp)[..|ret|]
    {
      var samples := |inp| / elemcount;
      ret := AppendChannel(th, elemcount, inp, samples, elemindex, ret);
      assert elemindex * samples + samples == (elemindex + 1) * samples;
    }
    if elemcount > 0 {
      assert |ChannelMajorCodes(th, elemcount, inp)| == Samples(|inp|, elemcount) * elemcount == |ret|;
    }
  }

  /**
   * One channel of the parallel loop in multithresholdLEMT: sample by
   * sample, the code of channel e is written at b * elemcount + e.
   */
  method WriteChannel(out: array<int>, th: seq<int>, elemcount: nat, inp: seq<int>,
                      samples: nat, e: nat, ghost codes: seq<int>)
    requires WellFormed(th, elemcount) && SortedChannels(th, elemcount)
    requires out.Length == |inp| && e < elemcount
    requires samples == Samples(|inp|, elemcount) && codes == UpperBoundCodes(th, elemcount, inp)
    requires |codes| <= |inp|
    requires out[..] == Written(codes, elemcount, |inp|, 0, e, 0)
    modifies out
    ensures out[..] == Written(codes, elemcount, |inp|, 0, e + 1, 0)
  {
    for batchindex := 0 to samples
      invariant out[..] == Written(codes, elemcount, |inp|, 0, e, batchindex)
    {
      CodesAt(th, elemcount, inp, batchindex, e);
      WrittenStep(codes, elemcount, |inp|, 0, samples, e, batchindex);
      var k := batchindex * elemcount + e;
      var result := CodeBase + StdUpperBound(Channel(th, e), inp[k]);
      assert ToInt8(result) == codes[k];
      out[k] := ToInt8(result);
    }
    WrittenChannelDone(codes, elemcount, |inp|, 0, samples, e);
  }

  /**
   * optimized::multithresholdLEMT: a zero-filled output of length |inp|
   * whose complete samples receive the batch-major codes by indexed
   * writes, channel by channel; entries past the last complete sample stay 0.
   */
  method MultithresholdLEMT(th: seq<int>, elemcount: nat, inp: seq<int>, procs: nat)
    returns (ret: seq<int>, threadcount: nat)
    requires WellFormed(th, elemcount) && SortedChannels(th, elemcount)
    requires elemcount <= SizeMax && procs <= SizeMax && |inp| <= SizeMax
    ensures threadcount == ThreadCount(elemcount, procs, |inp|)
    ensures |ret| == |inp|
    ensures ret == UpperBoundCodes(th, elemcount, inp)
                   + Repeat(0, Leftover(|inp|, elemcount))
  {
    var out := new int[|inp|](_ => 0);
    threadcount := ThreadCount(elemcount, procs, |inp|);
    var samples := |inp| / elemcount;
    ghost var codes := UpperBoundCodes(th, elemcount, inp);
    assert |codes| + Leftover(|inp|, elemcount) == |inp|;
    WrittenNone(codes, elemcount, |inp|, 0);
    for elemindex := 0 to elemcount
      invariant out[..] == Written(codes, elemcount, |inp|, 0, elemindex, 0)
    {
      WriteChannel(out, th, elemcount, inp, samples, elemindex, codes);
    }
    WrittenAll(codes, elemcount, |inp|, 0);
    ret := out[..];
  }
}
