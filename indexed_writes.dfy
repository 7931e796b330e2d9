/**
 * Kernels that preallocate their output and fill it by indexed writes,
 * channel by channel and sample by sample at position b * c + e
 * (optimized::multithresholdLEMT and the Python multithreshold).
 */
module IndexedWrites {
  import opened Thresholds

  /**
   * A preallocated output after channels 0 .. e - 1 and the first b samples
   * of channel e have been written: those positions hold their code, every
   * other position still holds the fill value blank.
   */
  ghost function Written(codes: seq<int>, c: nat, len: nat, blank: int, e: nat, b: nat): (w: seq<int>)
    requires c > 0 && |codes| <= len
    ensures |w| == len
  {
    seq(len, k requires 0 <= k < len => if k < |codes| && (k % c < e || (k % c == e && k / c < b)) then codes[k] else blank)
  }

  /** Writing sample b of channel e sets exactly position b * c + e. */
  lemma WrittenStep(codes: seq<int>, c: nat, len: nat, blank: int, n: nat, e: nat, b: nat)
    requires c > 0 && |codes| == n * c <= len && b < n && e < c
    ensures b * c + e < |codes|
    ensures Written(codes, c, len, blank, e, b)[b * c + e] == blank
    ensures Written(codes, c, len, blank, e, b + 1)
            == Written(codes, c, len, blank, e, b)[b * c + e := codes[b * c + e]]
  {
    IndexInRange(b, e, n, c);
    SplitIndex(b, e, c);
    forall k | 0 <= k < len && k != b * c + e && k % c == e
      ensures k / c != b
    {
      assert k == c * (k / c) + k % c;
    }
  }

  /** Once all n samples of channel e are written, channel e + 1 starts. */
  lemma WrittenChannelDone(codes: seq<int>, c: nat, len: nat, blank: int, n: nat, e: nat)
    requires c > 0 && |codes| == n * c <= len
    ensures Written(codes, c, len, blank, e, n) == Written(codes, c, len, blank, e + 1, 0)
  {
    forall k | 0 <= k < |codes|
      ensures k / c < n
    {
      RowInRange(k, n, c);
    }
  }

  /** Before any write the output holds only the fill value. */
  lemma WrittenNone(codes: seq<int>, c: nat, len: nat, blank: int)
    requires c > 0 && |codes| <= len
    ensures Written(codes, c, len, blank, 0, 0) == Repeat(blank, len)
  {
  }

  /** After all c channels the codes fill the front; the rest keeps the fill value. */
  lemma WrittenAll(codes: seq<int>, c: nat, len: nat, blank: int)
    requires c > 0 && |codes| <= len
    ensures Written(codes, c, len, blank, c, 0) == codes + Repeat(blank, len - |codes|)
  {
  }
}
