/**
 * The median-band noise filter `analogReadMedianFiltered` of src/main.cpp.
 *
 * The analog pin is replaced by the sequence of readings the ADC would
 * return, one per sample. The readings are inserted one at a time into the
 * array `sortedValues`, which is kept sorted, and the mean of the ten values
 * centred on the median rank is returned. The mean is an exact `real`.
 */
module MedianFilter {
  import opened Sorting

  /** SAMPLE_CNT: the number of samples `loop` takes per channel. */
  const SampleCount: nat := 250

  /** The largest value of the 10-bit ADC. */
  const AdcMax: int := 1023

  predicate IsReading(v: int) {
    0 <= v <= AdcMax
  }

  /**
   * The ten ranks `n/2 - 5 .. n/2 + 5` (upper bound excluded) of a sequence
   * of length n. All of them are valid indices exactly when n >= 10.
   */
  function Band(s: seq<int>): (b: seq<int>)
    requires |s| >= 10
    ensures |b| == 10
  {
    s[|s| / 2 - 5 .. |s| / 2 + 5]
  }

  /** What the filter returns for a window of readings: the band mean of their sorted order. */
  function Filter(readings: seq<int>): (r: real)
    requires |readings| >= 10
  {
    Sum(Band(SortedOf(readings))) as real / 10.0
  }

  /**
   * The insertion position of `value` among the `i` sorted values in
   * `sortedValues[..i]`: the first position, or the first `j` in `1 .. i`
   * whose left neighbour is at most `value` and which holds at least
   * `value`, or `i` when there is none.
   */
  method FindInsertPos(sortedValues: array<int>, i: nat, value: int) returns (j: nat)
    requires i < sortedValues.Length
    requires Sorted(sortedValues[..i])
    ensures j <= i
    ensures forall k :: 0 <= k < j ==> sortedValues[k] <= value
    ensures forall k :: j <= k < i ==> value <= sortedValues[k]
  {
    if value < sortedValues[0] || i == 0 {
      j := 0;
    } else {
      j := 1;
      while j < i
        invariant 1 <= j <= i
        invariant forall k :: 0 <= k < j ==> sortedValues[k] <= value
      {
        if sortedValues[j - 1] <= value && sortedValues[j] >= value {
          break;
        }
        j := j + 1;
      }
    }
  }

  /** Moves `sortedValues[j..i]` up one place to `[j + 1 .. i + 1]`; the rest is unchanged. */
  method ShiftUp(sortedValues: array<int>, j: nat, i: nat)
    requires j <= i < sortedValues.Length
    modifies sortedValues
    ensures forall k :: 0 <= k <= j ==> sortedValues[k] == old(sortedValues[k])
    ensures forall k :: j < k <= i ==> sortedValues[k] == old(sortedValues[k - 1])
    ensures forall k :: i < k < sortedValues.Length ==> sortedValues[k] == old(sortedValues[k])
  {
    var k := i;
    while k > j
      invariant j <= k <= i
      invariant forall t :: 0 <= t <= k ==> sortedValues[t] == old(sortedValues[t])
      invariant forall t :: k < t <= i ==> sortedValues[t] == old(sortedValues[t - 1])
      invariant forall t :: i < t < sortedValues.Length ==> sortedValues[t] == old(sortedValues[t])
    {
      sortedValues[k] := sortedValues[k - 1];
      k := k - 1;
    }
  }

  /** Inserting `v` at a position that splits `s` into values `<= v` and `>= v` keeps `s` sorted. */
  lemma SplitInsertSorted(s: seq<int>, j: nat, v: int)
    requires Sorted(s) && j <= |s|
    requires forall k :: 0 <= k < j ==> s[k] <= v
    requires forall k :: j <= k < |s| ==> v <= s[k]
    ensures Sorted(s[..j] + [v] + s[j..])
    ensures multiset(s[..j] + [v] + s[j..]) == multiset(s) + multiset{v}
  {
    assert s == s[..j] + s[j..];
    var r := s[..j] + [v] + s[j..];
    forall p, q | 0 <= p < q < |r| ensures r[p] <= r[q] {
      if q < j || p > j {
        assert r[p] == s[if p < j then p else p - 1];
        assert r[q] == s[if q < j then q else q - 1];
      }
    }
  }

  /**
   * One pass of the sampling loop: puts `value` at its rank among the `i`
   * sorted values, shifting the larger ones up, so that the first `i + 1`
   * values are sorted and hold the old ones plus `value`.
   */
  method InsertReading(sortedValues: array<int>, i: nat, value: int)
    requires i < sortedValues.Length
    requires Sorted(sortedValues[..i])
    modifies sortedValues
    ensures Sorted(sortedValues[..i + 1])
    ensures multiset(sortedValues[..i + 1]) == multiset(old(sortedValues[..i])) + multiset{value}
    ensures sortedValues[i + 1..] == old(sortedValues[i + 1..])
  {
    ghost var prefix := sortedValues[..i];
    ghost var tail := sortedValues[i + 1..];
    var j := FindInsertPos(sortedValues, i, value);
    assert forall k :: 0 <= k < j ==> prefix[k] <= value;
    assert forall k :: j <= k < i ==> value <= prefix[k];
    ShiftUp(sortedValues, j, i);
    assert forall k :: 0 <= k < j ==> sortedValues[k] == prefix[k];
    assert forall k :: j < k <= i ==> sortedValues[k] == prefix[k - 1];
    assert forall k :: 0 <= k < |tail| ==> sortedValues[i + 1 + k] == tail[k];
    sortedValues[j] := value;
    assert sortedValues[i + 1..] == tail;
    SplitInsertSorted(prefix, j, value);
    SplitInsertShape(sortedValues[..i + 1], prefix, j, value);
  }

  /** A sequence that holds `s[..j]`, then `v`, then `s[j..]` element by element is that concatenation. */
  lemma SplitInsertShape(t: seq<int>, s: seq<int>, j: nat, v: int)
    requires j <= |s| && |t| == |s| + 1
    requires forall k :: 0 <= k < j ==> t[k] == s[k]
    requires t[j] == v
    requires forall k :: j < k < |t| ==> t[k] == s[k - 1]
    ensures t == s[..j] + [v] + s[j..]
  {
    var r := s[..j] + [v] + s[j..];
    forall k | 0 <= k < |t| ensures t[k] == r[k] {
      if k < j {
        assert r[k] == s[k];
      } else if k > j {
        assert r[k] == s[k - 1];
      }
    }
  }

  /** The summing loop of the filter: adds up the ten values at ranks `n/2 - 5 .. n/2 + 5`. */
  method BandSum(sortedValues: array<int>) returns (returnval: int)
    requires sortedValues.Length >= 10
    ensures returnval == Sum(Band(sortedValues[..]))
  {
    var numSamples := sortedValues.Length;
    var lo := numSamples / 2 - 5;
    returnval := 0;
    for i := lo to numSamples / 2 + 5
      invariant returnval == Sum(sortedValues[lo..i])
    {
      assert sortedValues[lo..i + 1][..i - lo] == sortedValues[lo..i];
      returnval := returnval + sortedValues[i];
    }
  }

  /**
   * The sampling loop of the filter: inserts the readings one by one into a
   * new array, which ends up sorted and holding exactly the readings.
   */
  method SortReadings(readings: seq<int>) returns (sortedValues: array<int>)
    ensures fresh(sortedValues) && sortedValues.Length == |readings|
    ensures Sorted(sortedValues[..]) && multiset(sortedValues[..]) == multiset(readings)
  {
    var numSamples := |readings|;
    sortedValues := new int[numSamples];
    for i := 0 to numSamples
      invariant Sorted(sortedValues[..i])
      invariant multiset(sortedValues[..i]) == multiset(readings[..i])
    {
      var value := readings[i];
      ghost var before := sortedValues[..i];
      InsertReading(sortedValues, i, value);
      ghost var after := sortedValues[..i + 1];
      assert multiset(after) == multiset(before) + multiset{value};
      assert readings[..i + 1] == readings[..i] + [value];
    }
    assert sortedValues[..numSamples] == sortedValues[..];
    assert readings[..numSamples] == readings;
  }

  /**
   * analogReadMedianFiltered: insertion-sorts the readings into a local
   * array and returns the mean of its ten middle ranks.
   */
  method MedianFiltered(readings: seq<int>) returns (r: real)
    requires |readings| >= 10
    ensures r == Filter(readings)
  {
    var sortedValues := SortReadings(readings);
    IsSortedOf(sortedValues[..], readings);
    var returnval := BandSum(sortedValues);
    r := returnval as real / 10.0;
  }

  /**
   * Outliers cannot drag the result out of [lo, hi] as long as at most
   * n/2 - 5 readings lie below lo and at most n - (n/2 + 5) lie above hi.
   */
  lemma FilterRobust(readings: seq<int>, lo: int, hi: int)
    requires |readings| >= 10
    requires Count(readings, Below(lo)) <= |readings| / 2 - 5
    requires Count(readings, Above(hi)) <= |readings| - (|readings| / 2 + 5)
    ensures lo as real <= Filter(readings) <= hi as real
  {
    var s := SortedOf(readings);
    SortedOfIsSortedPermutation(readings);
    CountPermutation(s, readings, Below(lo));
    CountPermutation(s, readings, Above(hi));
    SortedBandRobust(s, lo, hi);
  }

  /** FilterRobust on the sorted window itself. */
  lemma SortedBandRobust(s: seq<int>, lo: int, hi: int)
    requires |s| >= 10 && Sorted(s)
    requires Count(s, Below(lo)) <= |s| / 2 - 5
    requires Count(s, Above(hi)) <= |s| - (|s| / 2 + 5)
    ensures 10 * lo <= Sum(Band(s)) <= 10 * hi
  {
    var n := |s|;
    if s[n / 2 - 5] < lo {
      RankBelow(s, n / 2 - 5, lo);
    }
    if s[n / 2 + 4] > hi {
      RankAbove(s, n / 2 + 4, hi);
    }
    BandBounds(s, lo, hi);
  }

  /** When the band's first and last ranks lie in [lo, hi], its sum lies in [10 lo, 10 hi]. */
  lemma BandBounds(s: seq<int>, lo: int, hi: int)
    requires |s| >= 10 && Sorted(s)
    requires lo <= s[|s| / 2 - 5] && s[|s| / 2 + 4] <= hi
    ensures 10 * lo <= Sum(Band(s)) <= 10 * hi
  {
    var b := Band(s);
    forall k | 0 <= k < 10 ensures lo <= b[k] <= hi {
      assert b[k] == s[|s| / 2 - 5 + k];
    }
    SumBounds(b, lo, hi);
  }

  /**
   * The filtered value lies between the smallest and the largest reading:
   * some reading `readings[p]` is the least of all and at most the result,
   * and some reading `readings[q]` is the greatest of all and at least it.
   */
  lemma FilterWithinRange(readings: seq<int>)
    requires |readings| >= 10
    ensures exists p, q :: 0 <= p < |readings| && 0 <= q < |readings|
              && (forall k :: 0 <= k < |readings| ==> readings[p] <= readings[k] <= readings[q])
              && readings[p] as real <= Filter(readings) <= readings[q] as real
  {
    var p, q := Extremes(readings);
    CountNone(readings, Below(readings[p]));
    CountNone(readings, Above(readings[q]));
    FilterRobust(readings, readings[p], readings[q]);
  }

  /** A window of identical readings filters to exactly that reading. */
  lemma FilterOfConstant(readings: seq<int>, v: int)
    requires |readings| >= 10
    requires forall k :: 0 <= k < |readings| ==> readings[k] == v
    ensures Filter(readings) == v as real
  {
    CountNone(readings, Below(v));
    CountNone(readings, Above(v));
    FilterRobust(readings, v, v);
  }

  /** The result depends only on the multiset of readings, not on their order. */
  lemma FilterOrderIndependent(x: seq<int>, y: seq<int>)
    requires |x| >= 10
    requires multiset(x) == multiset(y)
    ensures |y| == |x| && Filter(x) == Filter(y)
  {
    SortedOfIsSortedPermutation(x);
    SortedOfIsSortedPermutation(y);
    assert |y| == |multiset(y)| == |multiset(x)| == |x|;
    SortedPermutationUnique(SortedOf(x), SortedOf(y));
  }

  /** Readings from the 10-bit ADC filter to a value in [0, 1023]. */
  lemma FilterInAdcRange(readings: seq<int>)
    requires |readings| >= 10
    requires forall k :: 0 <= k < |readings| ==> IsReading(readings[k])
    ensures 0.0 <= Filter(readings) <= AdcMax as real
  {
    CountNone(readings, Below(0));
    CountNone(readings, Above(AdcMax));
    FilterRobust(readings, 0, AdcMax);
  }
}
