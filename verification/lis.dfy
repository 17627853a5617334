/** Longest strictly increasing subsequence: the quadratic table and the patience piles of
    Hot87.cpp both find the true maximum. */
module Lis {
  /** Positions of an increasing subsequence. */
  predicate Increasing(nums: seq<int>, idx: seq<nat>) {
    && (forall k :: 0 <= k < |idx| ==> idx[k] < |nums|)
    && (forall k, l :: 0 <= k < l < |idx| ==> idx[k] < idx[l] && nums[idx[k]] < nums[idx[l]])
  }

  ghost predicate IsLongest(nums: seq<int>, n: nat) {
    && (exists idx :: Increasing(nums, idx) && |idx| == n)
    && (forall idx :: Increasing(nums, idx) ==> |idx| <= n)
  }

  lemma LongestUnique(nums: seq<int>, m: nat, n: nat)
    requires IsLongest(nums, m) && IsLongest(nums, n)
    ensures m == n
  {
  }

  // ---- the quadratic table, filled from the right ----

  /** n is the length of the longest increasing subsequence that starts at position i. */
  ghost predicate StartsAt(nums: seq<int>, i: nat, n: nat) {
    && (exists idx :: Increasing(nums, idx) && |idx| == n && n > 0 && idx[0] == i)
    && (forall idx :: Increasing(nums, idx) && idx != [] && idx[0] == i ==> |idx| <= n)
  }

  /** The same among those whose second position, if any, comes before j. */
  ghost predicate StartsBefore(nums: seq<int>, i: nat, j: nat, n: nat) {
    && (exists idx :: Increasing(nums, idx) && |idx| == n && n > 0 && idx[0] == i)
    && (forall idx :: Increasing(nums, idx) && idx != [] && idx[0] == i && (|idx| > 1 ==> idx[1] < j) ==> |idx| <= n)
  }

  lemma Alone(nums: seq<int>, i: nat)
    requires i < |nums|
    ensures StartsBefore(nums, i, i + 1, 1)
  {
    assert Increasing(nums, [i]);
  }

  /** What starting with i and going on from j adds. */
  lemma OneMore(nums: seq<int>, i: nat, j: nat, n: nat, m: nat)
    requires i < j < |nums| && StartsBefore(nums, i, j, n) && StartsAt(nums, j, m)
    ensures StartsBefore(nums, i, j + 1, if nums[j] > nums[i] && m + 1 > n then m + 1 else n)
  {
    var r := if nums[j] > nums[i] && m + 1 > n then m + 1 else n;
    if nums[j] > nums[i] {
      var idx :| Increasing(nums, idx) && |idx| == m && m > 0 && idx[0] == j;
      assert Increasing(nums, [i] + idx) && ([i] + idx)[0] == i && |[i] + idx| == m + 1;
    }
    forall idx | Increasing(nums, idx) && idx != [] && idx[0] == i && (|idx| > 1 ==> idx[1] < j + 1)
      ensures |idx| <= r
    {
      if |idx| > 1 && idx[1] == j {
        assert Increasing(nums, idx[1..]) && idx[1..][0] == j;
      }
    }
  }

  lemma Whole(nums: seq<int>, i: nat, n: nat)
    requires i < |nums| && StartsBefore(nums, i, |nums|, n)
    ensures StartsAt(nums, i, n)
  {
    forall idx | Increasing(nums, idx) && idx != [] && idx[0] == i ensures |idx| <= n {
      assert |idx| > 1 ==> idx[1] < |nums|;
    }
  }

  /** The first version; an empty input gives 1. */
  method LengthQuadratic(nums: seq<int>) returns (maxLength: nat)
    ensures nums != [] ==> IsLongest(nums, maxLength)
    ensures nums == [] ==> maxLength == 1
  {
    hide StartsAt, StartsBefore, IsLongest, Increasing;
    var len := |nums|;
    maxLength := 1;
    var dp := new nat[len](_ => 1);
    if len > 0 {
      Alone(nums, len - 1);
      Whole(nums, len - 1, 1);
    }
    ghost var best := len - 1;
    var i := len - 2;
    while i >= 0
      invariant -2 <= i && (len > 0 ==> -1 <= i < len - 1) && (len == 0 ==> i < 0 && maxLength == 1)
      invariant forall k :: 0 <= k <= i ==> dp[k] == 1
      invariant forall k :: i < k < len && k >= 0 ==> StartsAt(nums, k, dp[k]) && dp[k] <= maxLength
      invariant len > 0 ==> i < best < len && dp[best] == maxLength
    {
      var j := i + 1;
      Alone(nums, i);
      while j < len
        invariant i < j <= len && StartsBefore(nums, i, j, dp[i])
        invariant forall k :: 0 <= k < i ==> dp[k] == 1
        invariant forall k :: i < k < len ==> StartsAt(nums, k, dp[k]) && dp[k] <= maxLength
        invariant i < best < len && dp[best] == maxLength
      {
        OneMore(nums, i, j, dp[i], dp[j]);
        if nums[j] > nums[i] {
          dp[i] := if dp[j] + 1 > dp[i] then dp[j] + 1 else dp[i];
        }
        j := j + 1;
      }
      Whole(nums, i, dp[i]);
      if maxLength < dp[i] {
        maxLength := dp[i];
        best := i;
      }
      i := i - 1;
    }
    if len > 0 {
      assert dp[..][best] == maxLength;
      LongestFrom(nums, dp[..], maxLength);
    }
  }

  lemma LongestFrom(nums: seq<int>, dp: seq<nat>, n: nat)
    requires |dp| == |nums| > 0 && forall k :: 0 <= k < |dp| ==> StartsAt(nums, k, dp[k]) && dp[k] <= n
    requires n in dp
    ensures IsLongest(nums, n)
  {
    var k :| 0 <= k < |dp| && dp[k] == n;
    assert StartsAt(nums, k, n);
    forall idx | Increasing(nums, idx) ensures |idx| <= n {
      if idx != [] {
        assert StartsAt(nums, idx[0], dp[idx[0]]);
      }
    }
  }

  // ---- the patience piles ----

  predicate Ascending(s: seq<int>) {
    forall i, j :: 0 <= i < j < |s| ==> s[i] < s[j]
  }

  /** `lower_bound`: the first position whose element is not less than x. */
  function LowerBound(s: seq<int>, x: int): (k: nat)
    requires Ascending(s)
    ensures k <= |s| && (forall i :: 0 <= i < k ==> s[i] < x) && (forall i :: k <= i < |s| ==> s[i] >= x)
  {
    if s == [] then 0
    else if s[|s| - 1] < x then |s|
    else LowerBound(s[..|s| - 1], x)
  }

  /** All positions lie before n. */
  predicate Within(idx: seq<nat>, n: nat) { forall k :: 0 <= k < |idx| ==> idx[k] < n }

  /** An increasing subsequence of the first n numbers with this length and last value. */
  predicate EndsIn(nums: seq<int>, n: nat, idx: seq<nat>, length: nat, last: int) {
    && |idx| == length > 0 && Increasing(nums, idx) && Within(idx, n)
    && nums[idx[length - 1]] == last
  }

  /** Each pile's top ends some increasing subsequence of its length. */
  ghost predicate Reachable(nums: seq<int>, n: nat, dp: seq<int>, ends: seq<seq<nat>>) {
    && |ends| == |dp|
    && forall k :: 0 <= k < |dp| ==> EndsIn(nums, n, ends[k], k + 1, dp[k])
  }

  /** No increasing subsequence of a pile's length ends lower than its top. */
  ghost predicate Least(nums: seq<int>, n: nat, dp: seq<int>) {
    forall idx :: Increasing(nums, idx) && Within(idx, n) && idx != [] ==>
      |idx| <= |dp| && dp[|idx| - 1] <= nums[idx[|idx| - 1]]
  }

  /** What one number does to the piles. */
  function Place(dp: seq<int>, x: int): seq<int>
    requires Ascending(dp)
  {
    var k := LowerBound(dp, x);
    if k == |dp| then dp + [x] else dp[k := x]
  }

  lemma PlaceReachable(nums: seq<int>, n: nat, dp: seq<int>, ends: seq<seq<nat>>) returns (ends': seq<seq<nat>>)
    requires n < |nums| && Ascending(dp) && Reachable(nums, n, dp, ends)
    ensures Reachable(nums, n + 1, Place(dp, nums[n]), ends')
  {
    hide EndsIn, Ascending, Increasing, Within;
    var k := LowerBound(dp, nums[n]);
    var end := NewEnd(nums, n, dp, ends, k);
    ends' := if k == |dp| then ends + [end] else ends[k := end];
    forall l | 0 <= l < |dp| ensures EndsIn(nums, n + 1, ends[l], l + 1, dp[l]) {
      Later(nums, n, ends[l], l + 1, dp[l]);
    }
  }

  lemma NewEnd(nums: seq<int>, n: nat, dp: seq<int>, ends: seq<seq<nat>>, k: nat) returns (end: seq<nat>)
    requires n < |nums| && Reachable(nums, n, dp, ends) && k <= |dp| && (k > 0 ==> dp[k - 1] < nums[n])
    ensures EndsIn(nums, n + 1, end, k + 1, nums[n])
  {
    end := (if k > 0 then ends[k - 1] else []) + [n];
    if k > 0 {
      assert EndsIn(nums, n, ends[k - 1], k, dp[k - 1]);
      Extended(nums, n, ends[k - 1]);
    }
  }

  lemma Later(nums: seq<int>, n: nat, idx: seq<nat>, length: nat, last: int)
    requires EndsIn(nums, n, idx, length, last)
    ensures EndsIn(nums, n + 1, idx, length, last)
  {
  }

  /** A subsequence that ends lower can go on with the next number. */
  lemma Extended(nums: seq<int>, n: nat, idx: seq<nat>)
    requires n < |nums| && idx != [] && Increasing(nums, idx) && Within(idx, n)
    requires nums[idx[|idx| - 1]] < nums[n]
    ensures Increasing(nums, idx + [n]) && Within(idx + [n], n + 1)
  {
    assert forall l :: 0 <= l < |idx| ==> nums[idx[l]] <= nums[idx[|idx| - 1]];
  }

  lemma PlaceLeast(nums: seq<int>, n: nat, dp: seq<int>)
    requires n < |nums| && Ascending(dp) && Least(nums, n, dp)
    ensures Ascending(Place(dp, nums[n])) && Least(nums, n + 1, Place(dp, nums[n]))
  {
    var x := nums[n];
    var k := LowerBound(dp, x);
    forall idx | Increasing(nums, idx) && Within(idx, n + 1) && idx != []
      ensures |idx| <= |Place(dp, x)| && Place(dp, x)[|idx| - 1] <= nums[idx[|idx| - 1]]
    {
      LeastLast(nums, n, dp, idx);
    }
  }

  lemma LeastLast(nums: seq<int>, n: nat, dp: seq<int>, idx: seq<nat>)
    requires n < |nums| && Ascending(dp) && Least(nums, n, dp)
    requires Increasing(nums, idx) && Within(idx, n + 1) && idx != []
    ensures |idx| <= |Place(dp, nums[n])| && Place(dp, nums[n])[|idx| - 1] <= nums[idx[|idx| - 1]]
  {
    var m := |idx| - 1;
    if idx[m] < n {
      assert Within(idx, n);
    } else if m > 0 {
      var front := idx[..m];
      assert Increasing(nums, front) && Within(front, n);
      assert dp[m - 1] <= nums[front[m - 1]] < nums[n];
    }
  }

  lemma {:induction false} PositionAtLeast(nums: seq<int>, idx: seq<nat>, k: nat)
    requires Increasing(nums, idx) && k < |idx|
    ensures idx[k] >= k
  {
    if k > 0 {
      PositionAtLeast(nums, idx, k - 1);
    }
  }

  /** At most n positions lie before n. */
  lemma FewWithin(nums: seq<int>, idx: seq<nat>, n: nat)
    requires Increasing(nums, idx) && Within(idx, n)
    ensures |idx| <= n
  {
    if idx != [] {
      PositionAtLeast(nums, idx, |idx| - 1);
    }
  }

  lemma NoPiles(nums: seq<int>)
    ensures Ascending([]) && Reachable(nums, 0, [], []) && Least(nums, 0, [])
  {
    forall idx | Increasing(nums, idx) && Within(idx, 0) ensures |idx| <= 0 {
      FewWithin(nums, idx, 0);
    }
  }

  /** The second version. */
  method LengthPatience(nums: seq<int>) returns (r: nat)
    ensures IsLongest(nums, r)
  {
    hide Least, Reachable, Ascending, IsLongest, LowerBound;
    var dp: seq<int> := [];
    ghost var ends: seq<seq<nat>> := [];
    NoPiles(nums);
    var i := 0;
    while i < |nums|
      invariant 0 <= i <= |nums| && Ascending(dp) && Reachable(nums, i, dp, ends) && Least(nums, i, dp)
    {
      ends := PlaceReachable(nums, i, dp, ends);
      PlaceLeast(nums, i, dp);
      var it := LowerBound(dp, nums[i]);
      if it == |dp| {
        dp := dp + [nums[i]];
      } else {
        dp := dp[it := nums[i]];
      }
      i := i + 1;
    }
    r := |dp|;
    PilesAnswer(nums, dp, ends);
  }

  lemma PilesAnswer(nums: seq<int>, dp: seq<int>, ends: seq<seq<nat>>)
    requires Reachable(nums, |nums|, dp, ends) && Least(nums, |nums|, dp)
    ensures IsLongest(nums, |dp|)
  {
    if dp == [] {
      assert Increasing(nums, []);
    } else {
      assert EndsIn(nums, |nums|, ends[|dp| - 1], |dp|, dp[|dp| - 1]);
    }
    forall idx | Increasing(nums, idx) ensures |idx| <= |dp| {
      assert Within(idx, |nums|);
    }
  }

  /** The versions agree on every input but the empty one. */
  method Agree(nums: seq<int>) returns (a: nat, b: nat)
    ensures IsLongest(nums, b) && (if nums == [] then a == 1 else IsLongest(nums, a))
    ensures a == b <==> nums != []
  {
    a := LengthQuadratic(nums);
    b := LengthPatience(nums);
    if nums != [] {
      LongestUnique(nums, a, b);
    } else {
      LongestUnique(nums, b, b);
      forall idx | Increasing(nums, idx) ensures |idx| <= 0 {
        FewWithin(nums, idx, 0);
      }
    }
  }
}
