/**
 * The lossy lookup table: thresholds are turned into table indices, each
 * index receives the rank of the last threshold that lands on it, and the
 * gaps are forward-filled with the last rank seen, so that looking up an
 * input's index yields the rank of the largest threshold not above it.
 *
 * Values are fixed-point integers: a threshold or input v stands for the
 * float v / scale, so the float-to-index step index(v) = v * scale + shift
 * becomes v + shift.
 */
module Lossy {
  import opened Thresholds

  // ---------------------------------------------------------------------
  // Index arithmetic

  /**
   * _lookup_index: the table index of the scaled value v.  The shift exists
   * so that index 0 comes out: v lands at 0 exactly when shift is v's offset.
   */
  function LookupIndex(v: int, shift: int): (i: int)
    ensures i == 0 <==> shift == Offset(v)
  {
    v + shift
  }

  /** _input_range: the span of the threshold values. */
  function InputRange(minS: int, maxS: int): (range: int)
    ensures minS + range == maxS
  {
    maxS - minS
  }

  /** _get_max_scale: a table one longer than the scaled range. */
  function GetMaxScale(range: int): (size: int)
    ensures range < size
    ensures range >= 0 ==> size >= 1
  {
    range + 1
  }

  /** _get_shift as written: the magnitude of the scaled minimum, whatever its sign. */
  function GetShift(minS: int): (shift: nat)
    ensures shift == minS || shift == -minS
  {
    if minS < 0 then -minS else minS
  }

  /** The offset that sends the scaled minimum to index 0. */
  function Offset(minS: int): (shift: int)
  {
    -minS
  }

  /** Table length for thresholds spanning [minS, maxS]: _get_max_scale of _input_range. */
  function TableSize(minS: int, maxS: int): (size: int)
  {
    GetMaxScale(InputRange(minS, maxS))
  }

  /** The table length the LossyThresholdLookup constructor allocates as written. */
  function CtorTableSize(minS: int, maxS: int): (size: int)
    ensures size + 1 == TableSize(minS, maxS)
  {
    InputRange(minS, maxS)
  }

  /**
   * With the offset -minS and the table size range + 1, every value of
   * [minS, maxS] has an index inside the table, minS at 0 and maxS last.
   */
  lemma TableCoversRange(minS: int, maxS: int, v: int)
    requires minS <= v <= maxS
    ensures 0 <= LookupIndex(v, Offset(minS)) < TableSize(minS, maxS)
    ensures LookupIndex(minS, Offset(minS)) == 0
    ensures LookupIndex(maxS, Offset(minS)) == TableSize(minS, maxS) - 1
  {
  }

  /** For a minimum at most 0, _get_shift is exactly the offset that sends minS to 0. */
  lemma ShiftIsOffsetForNonPositiveMin(minS: int)
    requires minS <= 0
    ensures GetShift(minS) == Offset(minS)
  {
  }

  /**
   * The constructor's table of scale * (max - min) entries has no room for
   * the largest threshold: its index is at least the table length.
   */
  lemma CtorTableMissesMax(minS: int, maxS: int)
    requires minS <= maxS
    ensures LookupIndex(maxS, GetShift(minS)) >= CtorTableSize(minS, maxS)
    ensures minS <= 0 ==> LookupIndex(maxS, GetShift(minS)) == CtorTableSize(minS, maxS)
  {
  }

  /**
   * For a positive minimum, _get_shift adds instead of subtracting: the
   * minimum lands at 2 * minS, not 0, and the maximum past the end of even a
   * table of range + 1 entries.
   */
  lemma ShiftMisplacesPositiveMin(minS: int, maxS: int)
    requires 0 < minS <= maxS
    ensures LookupIndex(minS, GetShift(minS)) == 2 * minS > 0
    ensures LookupIndex(maxS, GetShift(minS)) >= TableSize(minS, maxS)
  {
  }

  /** std::pow(10, digits) as the integer scale. */
  function Pow10(n: nat): (p: nat)
    ensures p >= 1
  {
    if n == 0 then 1 else 10 * Pow10(n - 1)
  }

  // ---------------------------------------------------------------------
  // The table before and after gap filling

  /**
   * The rank written at index j: the last rank i whose threshold has index j
   * (later ranks overwrite earlier ones), or 0 when none does.
   */
  function LastRank(nums: seq<int>, shift: int, j: int): (rank: nat)
  {
    if nums == [] then 0
    else if LookupIndex(nums[|nums| - 1], shift) == j then |nums| - 1
    else LastRank(nums[..|nums| - 1], shift, j)
  }

  /**
   * The rank at index j is 0 when no threshold lands there, and otherwise a
   * threshold landing there after which no other one does.
   */
  lemma {:induction false} LastRankIsLast(nums: seq<int>, shift: int, j: int)
    ensures (forall i :: 0 <= i < |nums| ==> LookupIndex(nums[i], shift) != j) ==> LastRank(nums, shift, j) == 0
    ensures (exists i :: 0 <= i < |nums| && LookupIndex(nums[i], shift) == j) ==>
              var r := LastRank(nums, shift, j);
              r < |nums| && LookupIndex(nums[r], shift) == j
              && forall i :: r < i < |nums| ==> LookupIndex(nums[i], shift) != j
  {
    if nums != [] {
      var init := nums[..|nums| - 1];
      LastRankIsLast(init, shift, j);
      assert forall i :: 0 <= i < |init| ==> init[i] == nums[i];
    }
  }

  /** The table after the rank-writing loop: zero except where a threshold landed. */
  function RankTable(nums: seq<int>, shift: int, size: nat): (t: seq<nat>)
    ensures |t| == size
  {
    seq(size, j => LastRank(nums, shift, j))
  }

  /** Writing rank i at the index of nums[i] extends the rank table by one threshold. */
  lemma RankTableStep(nums: seq<int>, shift: int, size: nat, i: nat)
    requires i < |nums| && 0 <= LookupIndex(nums[i], shift) < size
    ensures RankTable(nums[..i + 1], shift, size)
            == RankTable(nums[..i], shift, size)[LookupIndex(nums[i], shift) := i]
  {
    assert nums[..i + 1][..i] == nums[..i];
  }

  /** The last nonzero element of s, or 0 when every element is 0. */
  function LastNonzero(s: seq<nat>): (current: nat)
  {
    if s == [] then 0
    else if s[|s| - 1] != 0 then s[|s| - 1]
    else LastNonzero(s[..|s| - 1])
  }

  /** The last nonzero element is 0 exactly when every element is 0. */
  lemma {:induction false} LastNonzeroZero(s: seq<nat>)
    ensures LastNonzero(s) == 0 <==> forall p :: 0 <= p < |s| ==> s[p] == 0
  {
    if s != [] {
      var init := s[..|s| - 1];
      LastNonzeroZero(init);
      assert forall p :: 0 <= p < |init| ==> init[p] == s[p];
    }
  }

  /** The table after gap filling: each entry is the last nonzero entry at or before it. */
  function Filled(t: seq<nat>): (f: seq<nat>)
    ensures |f| == |t|
  {
    seq(|t|, j requires 0 <= j < |t| => LastNonzero(t[..j + 1]))
  }

  /** The table _create_lookup_table builds for thresholds nums. */
  function LookupTable(nums: seq<int>, shift: int, size: nat): (t: seq<nat>)
    ensures |t| == size
  {
    Filled(RankTable(nums, shift, size))
  }

  /**
   * One step of the fill: a nonzero entry is kept, a zero entry takes the
   * previous filled entry (0 at the front).
   */
  lemma FilledStep(t: seq<nat>, j: nat)
    requires j < |t|
    ensures t[j] != 0 ==> Filled(t)[j] == t[j]
    ensures t[j] == 0 && j == 0 ==> Filled(t)[j] == 0
    ensures t[j] == 0 && j > 0 ==> Filled(t)[j] == Filled(t)[j - 1]
  {
    assert t[..j + 1][..j] == t[..j];
  }

  /** The fill on the table 0 1 0 0 5 0 0 7 0 10. */
  lemma FillExample()
    ensures Filled([0, 1, 0, 0, 5, 0, 0, 7, 0, 10]) == [0, 1, 1, 1, 5, 5, 5, 7, 7, 10]
  {
    var t: seq<nat> := [0, 1, 0, 0, 5, 0, 0, 7, 0, 10];
    forall j | 0 <= j < |t|
      ensures Filled(t)[j] == [0, 1, 1, 1, 5, 5, 5, 7, 7, 10][j]
    {
      if j > 0 {
        FilledStep(t, j - 1);
      }
      FilledStep(t, j);
    }
  }

  /** The nonzero entries of t are non-decreasing from left to right. */
  predicate NonzeroAscending(t: seq<nat>)
  {
    forall i, j :: 0 <= i < j < |t| && t[i] != 0 && t[j] != 0 ==> t[i] <= t[j]
  }

  /** A nonzero filled entry is copied from an entry at or before it. */
  lemma {:induction false} FilledSource(t: seq<nat>, j: nat) returns (p: nat)
    requires j < |t|
    ensures Filled(t)[j] != 0 ==> p <= j && t[p] == Filled(t)[j]
  {
    FilledStep(t, j);
    if t[j] != 0 {
      p := j;
    } else if j == 0 {
      p := 0;
    } else {
      p := FilledSource(t, j - 1);
    }
  }

  lemma {:induction false} FilledMonotoneUpTo(t: seq<nat>, j: nat)
    requires NonzeroAscending(t) && j < |t|
    ensures forall i :: 0 <= i <= j ==> Filled(t)[i] <= Filled(t)[j]
  {
    if j > 0 {
      FilledMonotoneUpTo(t, j - 1);
      FilledStep(t, j);
      var p := FilledSource(t, j - 1);
      assert Filled(t)[j - 1] <= Filled(t)[j];
    }
  }

  /** When the nonzero entries rise from left to right, the filled table never decreases. */
  lemma FilledMonotone(t: seq<nat>)
    requires NonzeroAscending(t)
    ensures forall i, j :: 0 <= i <= j < |t| ==> Filled(t)[i] <= Filled(t)[j]
  {
    forall j | 0 <= j < |t|
      ensures forall i :: 0 <= i <= j ==> Filled(t)[i] <= Filled(t)[j]
    {
      FilledMonotoneUpTo(t, j);
    }
  }

  /** For sorted thresholds the ranks in the table rise with the index. */
  lemma RankTableAscending(nums: seq<int>, shift: int, size: nat)
    requires Sorted(nums)
    ensures NonzeroAscending(RankTable(nums, shift, size))
  {
    var t := RankTable(nums, shift, size);
    forall i, j | 0 <= i < j < |t| && t[i] != 0 && t[j] != 0
      ensures t[i] <= t[j]
    {
      LastRankIsLast(nums, shift, i);
      LastRankIsLast(nums, shift, j);
      assert LookupIndex(nums[t[i]], shift) == i;
      assert LookupIndex(nums[t[j]], shift) == j;
    }
  }

  // ---------------------------------------------------------------------
  // Lookups on sorted thresholds

  /** Over integers, the at-most count of v adds the elements equal to v to that of v - 1. */
  lemma {:induction false} CountAtMostPrevious(s: seq<int>, v: int)
    ensures CountAtMost(s, v) == CountAtMost(s, v - 1) + CountEqual(s, v)
  {
    if s != [] {
      CountAtMostPrevious(s[..|s| - 1], v);
    }
  }

  /** On sorted thresholds the rank written at index j is the at-most count minus one. */
  lemma LastRankSorted(nums: seq<int>, shift: int, j: int)
    requires Sorted(nums)
    ensures CountEqual(nums, j - shift) > 0 ==> LastRank(nums, shift, j) + 1 == CountAtMost(nums, j - shift)
    ensures CountEqual(nums, j - shift) == 0 ==> LastRank(nums, shift, j) == 0
  {
    var v := j - shift;
    CountEqualZero(nums, v);
    LastRankIsLast(nums, shift, j);
    if CountEqual(nums, v) > 0 {
      var r := LastRank(nums, shift, j);
      assert IsUpperBound(nums, v, r + 1);
      UpperBoundIsCount(nums, v, r + 1);
    }
  }

  /** Some threshold is at most any value from the smallest one upwards. */
  lemma CountAtMostFromMin(nums: seq<int>, v: int)
    requires Sorted(nums) && |nums| > 0 && nums[0] <= v
    ensures CountAtMost(nums, v) >= 1
  {
    CountIsUpperBound(nums, v);
  }

  lemma {:induction false} LookupCountsAt(nums: seq<int>, size: nat, j: nat)
    requires Sorted(nums) && |nums| > 0 && j < size
    ensures LookupTable(nums, Offset(nums[0]), size)[j] + 1 == CountAtMost(nums, j + nums[0])
  {
    var shift := Offset(nums[0]);
    var t := RankTable(nums, shift, size);
    var v := j + nums[0];
    FilledStep(t, j);
    LastRankSorted(nums, shift, j);
    if t[j] == 0 {
      if j == 0 {
        CountEqualZero(nums, v);
      } else {
        LookupCountsAt(nums, size, j - 1);
        CountAtMostPrevious(nums, v);
        CountAtMostFromMin(nums, v - 1);
      }
    }
  }

  /**
   * With the offset -nums[0] of sorted thresholds, entry j of the table is
   * the rank of the largest threshold not above nums[0] + j, i.e. the
   * number of thresholds at most that value, minus one.
   */
  lemma LookupCounts(nums: seq<int>, size: nat)
    requires Sorted(nums) && |nums| > 0
    ensures forall j :: 0 <= j < size ==>
              LookupTable(nums, Offset(nums[0]), size)[j] + 1 == CountAtMost(nums, j + nums[0])
  {
    forall j | 0 <= j < size
      ensures LookupTable(nums, Offset(nums[0]), size)[j] + 1 == CountAtMost(nums, j + nums[0])
    {
      LookupCountsAt(nums, size, j);
    }
  }

  // ---------------------------------------------------------------------
  // Building the table

  /**
   * _create_lookup_table: a zero-filled table, rank i written at the index of
   * threshold i, then a left-to-right pass that replaces every zero entry by
   * the last nonzero entry before it.
   */
  method CreateLookupTable(nums: seq<int>, shift: int, size: nat) returns (table: seq<nat>)
    requires forall i :: 0 <= i < |nums| ==> 0 <= LookupIndex(nums[i], shift) < size
    ensures table == LookupTable(nums, shift, size)
  {
    var results := new nat[size](_ => 0);
    for i := 0 to |nums|
      invariant results[..] == RankTable(nums[..i], shift, size)
    {
      RankTableStep(nums, shift, size, i);
      results[LookupIndex(nums[i], shift)] := i;
    }
    assert nums[..|nums|] == nums;
    ghost var ranks := results[..];
    var current: nat := 0;
    for j := 0 to size
      invariant forall k :: 0 <= k < j ==> results[k] == Filled(ranks)[k]
      invariant forall k :: j <= k < size ==> results[k] == ranks[k]
      invariant j == 0 ==> current == 0
      invariant j > 0 ==> current == Filled(ranks)[j - 1]
    {
      FilledStep(ranks, j);
      if results[j] != 0 && results[j] != current {
        current := results[j];
      } else {
        results[j] := current;
      }
    }
    table := results[..];
  }

  /** get_element: the table entry at the index of the scaled value v. */
  function GetElement(table: seq<nat>, v: int, shift: int): (rank: nat)
    requires 0 <= LookupIndex(v, shift) < |table|
    ensures rank in table
  {
    table[LookupIndex(v, shift)]
  }

  /**
   * On the table of sorted thresholds, get_element of a value in their range
   * is the number of thresholds at most the value, minus one.
   */
  lemma GetElementCounts(nums: seq<int>, v: int)
    requires Sorted(nums) && |nums| > 0 && nums[0] <= v <= nums[|nums| - 1]
    ensures 0 <= LookupIndex(v, Offset(nums[0])) < TableSize(nums[0], nums[|nums| - 1])
    ensures GetElement(LookupTable(nums, Offset(nums[0]), TableSize(nums[0], nums[|nums| - 1])), v, Offset(nums[0])) + 1
            == CountAtMost(nums, v)
  {
    LookupCounts(nums, TableSize(nums[0], nums[|nums| - 1]));
    assert LookupIndex(v, Offset(nums[0])) + nums[0] == v;
  }

  // ---------------------------------------------------------------------
  // The run-time lookup object

  function SeqMin(s: seq<int>): (m: int)
    requires |s| > 0
    ensures (exists i :: 0 <= i < |s| && s[i] == m) && forall i :: 0 <= i < |s| ==> m <= s[i]
  {
    if |s| == 1 then s[0]
    else
      var m := SeqMin(s[..|s| - 1]);
      assert forall i :: 0 <= i < |s| - 1 ==> s[..|s| - 1][i] == s[i];
      if s[|s| - 1] < m then s[|s| - 1] else m
  }

  function SeqMax(s: seq<int>): (m: int)
    requires |s| > 0
    ensures (exists i :: 0 <= i < |s| && s[i] == m) && forall i :: 0 <= i < |s| ==> s[i] <= m
  {
    if |s| == 1 then s[0]
    else
      var m := SeqMax(s[..|s| - 1]);
      assert forall i :: 0 <= i < |s| - 1 ==> s[..|s| - 1][i] == s[i];
      if s[|s| - 1] > m then s[|s| - 1] else m
  }

  /** LossyThresholdLookup: thresholds reduced to a table indexed by scaled input. */
  class LossyThresholdLookup {
    var scale: nat
    var shift: int
    var table: seq<nat>
    var min: int
    var max: int
    /** The thresholds the table was built from. */
    ghost var Source: seq<int>

    ghost predicate Valid()
      reads this
    {
      |Source| > 0 && scale >= 1
      && min == SeqMin(Source) && max == SeqMax(Source)
      && shift == Offset(min)
      && |table| == TableSize(min, max)
      && table == LookupTable(Source, shift, |table|)
    }

    /**
     * Takes the extreme thresholds, the scale 10^precisionDigits and the
     * offset of the minimum, then builds the table as _create_lookup_table
     * does, with range + 1 entries.
     */
    constructor (thresholds: seq<int>, precisionDigits: nat)
      requires |thresholds| > 0
      ensures Valid() && Source == thresholds
      ensures scale == Pow10(precisionDigits)
    {
      var lo := SeqMin(thresholds);
      var hi := SeqMax(thresholds);
      forall i | 0 <= i < |thresholds|
        ensures 0 <= LookupIndex(thresholds[i], Offset(lo)) < TableSize(lo, hi)
      {
        TableCoversRange(lo, hi, thresholds[i]);
      }
      var t := CreateLookupTable(thresholds, Offset(lo), TableSize(lo, hi));
      min := lo;
      max := hi;
      scale := Pow10(precisionDigits);
      shift := Offset(lo);
      table := t;
      Source := thresholds;
    }

    /** index: the table position of a scaled input; inside the table on [min, max]. */
    function Index(input: int): (i: int)
      reads this
      requires Valid()
      ensures min <= input <= max ==> 0 <= i < |table|
    {
      LookupIndex(input, shift)
    }

    /**
     * threshold: the last entry above max, the first below min, the entry at
     * index(input) otherwise.  For sorted thresholds that is the number of
     * thresholds at most the input (at most min below the range), minus one.
     */
    function Threshold(input: int): (r: nat)
      reads this
      requires Valid()
      ensures Sorted(Source) ==> r + 1 == CountAtMost(Source, if input < min then min else input)
    {
      var r :=
        if input > max then table[|table| - 1]
        else if input < min then table[0]
        else table[Index(input)];
      assert Sorted(Source) ==> r + 1 == CountAtMost(Source, if input < min then min else input) by {
        if Sorted(Source) {
          SortedExtremes(Source);
          if input > max {
            ThresholdAbove(Source, table, min, max, shift, input);
          } else if input < min {
            ThresholdBelow(Source, table, min, max, shift, input);
          } else {
            ThresholdWithin(Source, table, min, max, shift, input);
          }
        }
      }
      r
    }

    /**
     * thresholds(inputs): a vector of the same length whose k-th entry is
     * threshold(inputs[k]).
     */
    method Thresholds(inputs: seq<int>) returns (r: seq<nat>)
      requires Valid()
      ensures |r| == |inputs|
      ensures forall k :: 0 <= k < |inputs| ==> r[k] == Threshold(inputs[k])
    {
      var out := new nat[|inputs|](_ => 0);
      for k := 0 to |inputs|
        invariant forall i :: 0 <= i < k ==> out[i] == Threshold(inputs[i])
      {
        out[k] := Threshold(inputs[k]);
      }
      r := out[..];
    }

    /**
     * thresholds(inputs, out): writes threshold(inputs[k]) into out[k]; the
     * entries of out past |inputs| are untouched.
     */
    method ThresholdsInto(inputs: seq<int>, out: array<nat>)
      requires Valid() && out.Length >= |inputs|
      modifies out
      ensures forall k :: 0 <= k < |inputs| ==> out[k] == Threshold(inputs[k])
      ensures out[|inputs|..] == old(out[|inputs|..])
    {
      for k := 0 to |inputs|
        invariant forall i :: 0 <= i < k ==> out[i] == Threshold(inputs[i])
        invariant out[|inputs|..] == old(out[|inputs|..])
      {
        out[k] := Threshold(inputs[k]);
      }
    }
  }

  /** The extreme thresholds of a sorted sequence are its ends. */
  lemma SortedExtremes(nums: seq<int>)
    requires Sorted(nums) && |nums| > 0
    ensures SeqMin(nums) == nums[0] && SeqMax(nums) == nums[|nums| - 1]
  {
  }

  /** t is the table of the sorted thresholds nums, spanning [lo, hi] with offset shift. */
  ghost predicate SortedTable(nums: seq<int>, t: seq<nat>, lo: int, hi: int, shift: int)
  {
    Sorted(nums) && |nums| > 0
    && lo == nums[0] && hi == nums[|nums| - 1] && shift == Offset(lo)
    && t == LookupTable(nums, shift, TableSize(lo, hi))
  }

  /** Above the largest threshold, the last entry counts all thresholds. */
  lemma ThresholdAbove(nums: seq<int>, t: seq<nat>, lo: int, hi: int, shift: int, input: int)
    requires SortedTable(nums, t, lo, hi, shift) && input > hi
    ensures |t| > 0 && t[|t| - 1] + 1 == CountAtMost(nums, input) == |nums|
  {
    LookupCountsAt(nums, TableSize(lo, hi), TableSize(lo, hi) - 1);
    CountAtMostExtremes(nums, hi);
    CountAtMostExtremes(nums, input);
  }

  /** Below the smallest threshold, the first entry counts the thresholds equal to it. */
  lemma ThresholdBelow(nums: seq<int>, t: seq<nat>, lo: int, hi: int, shift: int, input: int)
    requires SortedTable(nums, t, lo, hi, shift) && input < lo
    ensures |t| > 0 && t[0] + 1 == CountAtMost(nums, lo)
  {
    LookupCountsAt(nums, TableSize(lo, hi), 0);
  }

  /** Inside [lo, hi], the entry at the input's index counts the thresholds at most the input. */
  lemma ThresholdWithin(nums: seq<int>, t: seq<nat>, lo: int, hi: int, shift: int, input: int)
    requires SortedTable(nums, t, lo, hi, shift) && lo <= input <= hi
    ensures 0 <= LookupIndex(input, shift) < |t|
    ensures t[LookupIndex(input, shift)] + 1 == CountAtMost(nums, input)
  {
    LookupCountsAt(nums, TableSize(lo, hi), input - lo);
  }
}
