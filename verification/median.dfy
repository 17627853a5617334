/** The median of two sorted arrays: the merge walk and the binary-searched partition of
    Hot68.cpp against the median of the sorted union. */
module Median {
  const INT_MIN := -0x8000_0000
  const INT_MAX := 0x7fff_ffff

  type i32 = x: int | INT_MIN <= x <= INT_MAX

  predicate Sorted(s: seq<int>) {
    forall i, j :: 0 <= i < j < |s| ==> s[i] <= s[j]
  }

  function Merge(a: seq<int>, b: seq<int>): seq<int>
    decreases |a| + |b|
  {
    if a == [] then b
    else if b == [] then a
    else if a[0] <= b[0] then [a[0]] + Merge(a[1..], b)
    else [b[0]] + Merge(a, b[1..])
  }

  lemma {:induction false} MergeElements(a: seq<int>, b: seq<int>)
    ensures multiset(Merge(a, b)) == multiset(a) + multiset(b) && |Merge(a, b)| == |a| + |b|
    decreases |a| + |b|
  {
    if a != [] && b != [] {
      assert a == [a[0]] + a[1..] && b == [b[0]] + b[1..];
      if a[0] <= b[0] {
        MergeElements(a[1..], b);
      } else {
        MergeElements(a, b[1..]);
      }
    }
  }

  predicate AtLeast(x: int, s: seq<int>) { forall y :: y in s ==> x <= y }

  predicate AtMost(s: seq<int>, x: int) { forall y :: y in s ==> y <= x }

  lemma SortedTail(s: seq<int>)
    requires Sorted(s) && s != []
    ensures Sorted(s[1..]) && AtLeast(s[0], s[1..]) && AtLeast(s[0], s)
  {
  }

  lemma SortedCons(x: int, s: seq<int>)
    requires Sorted(s) && AtLeast(x, s)
    ensures Sorted([x] + s)
  {
    var t := [x] + s;
    forall i, j | 0 <= i < j < |t| ensures t[i] <= t[j] {
      assert t[j] == s[j - 1] && t[j] in s;
    }
  }

  lemma MergeHas(a: seq<int>, b: seq<int>, y: int)
    ensures y in Merge(a, b) <==> y in a || y in b
  {
    MergeElements(a, b);
    assert y in Merge(a, b) <==> y in multiset(Merge(a, b));
  }

  lemma MergeAtLeast(x: int, a: seq<int>, b: seq<int>)
    requires AtLeast(x, a) && AtLeast(x, b)
    ensures AtLeast(x, Merge(a, b))
  {
    forall y | y in Merge(a, b) ensures x <= y {
      MergeHas(a, b, y);
    }
  }

  lemma {:induction false} MergeSorted(a: seq<int>, b: seq<int>)
    requires Sorted(a) && Sorted(b)
    ensures Sorted(Merge(a, b))
    decreases |a| + |b|
  {
    hide Sorted;
    if a != [] && b != [] {
      SortedTail(a);
      SortedTail(b);
      if a[0] <= b[0] {
        MergeSorted(a[1..], b);
        MergeAtLeast(a[0], a[1..], b);
        SortedCons(a[0], Merge(a[1..], b));
      } else {
        MergeSorted(a, b[1..]);
        MergeAtLeast(b[0], a, b[1..]);
        SortedCons(b[0], Merge(a, b[1..]));
      }
    }
  }

  /** A multiset has one sorted arrangement. */
  lemma {:induction false} SortedUnique(s: seq<int>, t: seq<int>)
    requires Sorted(s) && Sorted(t) && multiset(s) == multiset(t)
    ensures s == t
    decreases |s|
  {
    hide Sorted;
    SameLength(s, t);
    if s != [] {
      SortedTail(s);
      SortedTail(t);
      SameFirst(s, t);
      LessFirst(s);
      LessFirst(t);
      SortedUnique(s[1..], t[1..]);
      assert s == [s[0]] + s[1..] && t == [t[0]] + t[1..];
    }
  }

  lemma SameLength(s: seq<int>, t: seq<int>)
    requires multiset(s) == multiset(t)
    ensures |s| == |t|
  {
    assert |multiset(s)| == |s| && |multiset(t)| == |t|;
  }

  lemma SameFirst(s: seq<int>, t: seq<int>)
    requires s != [] && t != [] && AtLeast(s[0], s) && AtLeast(t[0], t) && multiset(s) == multiset(t)
    ensures s[0] == t[0]
  {
    assert s[0] in multiset(s) && t[0] in multiset(t);
    assert s[0] in t && t[0] in s;
  }

  lemma LessFirst(s: seq<int>)
    requires s != []
    ensures multiset(s[1..]) == multiset(s) - multiset{s[0]}
  {
    assert s == [s[0]] + s[1..];
  }

  function Halved(x: int): real { x as real / 2.0 }

  /** The median of a sorted sequence. */
  function MedianOf(u: seq<int>): real
    requires u != []
  {
    Halved(u[(|u| - 1) / 2] + u[|u| / 2])
  }

  /** The mean of two elements with as many before the first as after the second and none between
      them; they are the same one when their number is odd. */
  lemma MedianIs(u: seq<int>) returns (i: nat, j: nat)
    requires u != []
    ensures i <= j < |u| && i == |u| - 1 - j && j <= i + 1 && (i == j <==> |u| % 2 == 1)
    ensures MedianOf(u) == (u[i] + u[j]) as real / 2.0
  {
    i, j := (|u| - 1) / 2, |u| / 2;
  }

  /** u is the sorted union of a and b. */
  predicate SortedUnion(u: seq<int>, a: seq<int>, b: seq<int>) {
    Sorted(u) && multiset(u) == multiset(a) + multiset(b)
  }

  lemma UnionIsMerge(u: seq<int>, a: seq<int>, b: seq<int>)
    requires SortedUnion(u, a, b) && Sorted(a) && Sorted(b)
    ensures u == Merge(a, b)
  {
    MergeElements(a, b);
    MergeSorted(a, b);
    SortedUnique(u, Merge(a, b));
  }

  // ---- the merge walk ----

  /** What the walk has added up after passing `count` elements. */
  function Partial(u: seq<int>, left: nat, count: nat): real {
    if left < count && left < |u| then u[left] as real else 0.0
  }

  lemma NothingYet(u: seq<int>, left: nat)
    ensures Partial(u, left, 0) == 0.0
  {
  }

  lemma TakeLeft(u: seq<int>, count: nat, a: seq<int>, b: seq<int>)
    requires count <= |u| && u[count..] == Merge(a, b) && a != [] && (b == [] || a[0] <= b[0])
    ensures count < |u| && u[count] == a[0] && u[count + 1..] == Merge(a[1..], b)
  {
    MergeElements(a, b);
    assert u[count..][0] == u[count] && u[count..][1..] == u[count + 1..];
    assert b == [] ==> Merge(a[1..], b) == a[1..];
  }

  lemma TakeRight(u: seq<int>, count: nat, a: seq<int>, b: seq<int>)
    requires count <= |u| && u[count..] == Merge(a, b) && b != [] && (a == [] || b[0] < a[0])
    ensures count < |u| && u[count] == b[0] && u[count + 1..] == Merge(a, b[1..])
  {
    MergeElements(a, b);
    assert u[count..][0] == u[count] && u[count..][1..] == u[count + 1..];
  }

  /** C's division truncates toward zero. */
  function Half(x: int): int { if x < 0 then -((-x) / 2) else x / 2 }

  /** The visit of one element: it counts once for each middle position, and the walk is over
      at the second one. */
  method Visit(x: int, count: nat, left: int, right: int, result0: real, ghost u: seq<int>)
    returns (done: bool, result: real)
    requires count < |u| && u[count] == x && left == (|u| - 1) / 2 && right == |u| / 2 && count <= right
    requires result0 == Partial(u, left, count)
    ensures done <==> count == right
    ensures done ==> result / 2.0 == MedianOf(u)
    ensures !done ==> result == Partial(u, left, count + 1)
  {
    result := result0;
    if count == left {
      result := result + x as real;
    }
    if count == right {
      result := result + x as real;
      return true, result;
    }
    done := false;
  }

  /** The first version: 0 when both inputs are empty. */
  method WalkMedian(nums1: seq<int>, nums2: seq<int>) returns (r: real)
    ensures nums1 + nums2 == [] ==> r == 0.0
    ensures nums1 + nums2 != [] ==> |Merge(nums1, nums2)| > 0 && r == MedianOf(Merge(nums1, nums2))
  {
    hide Merge, MedianOf, Halved, Partial;
    ghost var u := Merge(nums1, nums2);
    MergeElements(nums1, nums2);
    var loc1, loc2, count := 0, 0, 0;
    var result := 0.0;
    var total := |nums1| + |nums2|;
    var left := Half(total - 1);
    var right := total / 2;
    NothingYet(u, left);
    while loc1 < |nums1| && loc2 < |nums2|
      invariant loc1 <= |nums1| && loc2 <= |nums2| && count == loc1 + loc2 && result == Partial(u, left, count)
      invariant u[count..] == Merge(nums1[loc1..], nums2[loc2..])
      invariant total > 0 ==> count <= right
    {
      if nums1[loc1] <= nums2[loc2] {
        TakeLeft(u, count, nums1[loc1..], nums2[loc2..]);
        assert nums1[loc1..][1..] == nums1[loc1 + 1..];
        var done: bool;
        done, result := Visit(nums1[loc1], count, left, right, result, u);
        if done {
          return result / 2.0;
        }
        count := count + 1;
        loc1 := loc1 + 1;
      } else {
        TakeRight(u, count, nums1[loc1..], nums2[loc2..]);
        assert nums2[loc2..][1..] == nums2[loc2 + 1..];
        var done: bool;
        done, result := Visit(nums2[loc2], count, left, right, result, u);
        if done {
          return result / 2.0;
        }
        count := count + 1;
        loc2 := loc2 + 1;
      }
    }
    while loc1 < |nums1|
      invariant loc1 <= |nums1| && loc2 <= |nums2| && count == loc1 + loc2 && result == Partial(u, left, count)
      invariant u[count..] == Merge(nums1[loc1..], nums2[loc2..]) && (loc1 == |nums1| || loc2 == |nums2|)
      invariant total > 0 ==> count <= right
    {
      TakeLeft(u, count, nums1[loc1..], nums2[loc2..]);
      assert nums1[loc1..][1..] == nums1[loc1 + 1..];
      var done: bool;
      done, result := Visit(nums1[loc1], count, left, right, result, u);
      if done {
        return result / 2.0;
      }
      count := count + 1;
      loc1 := loc1 + 1;
    }
    while loc2 < |nums2|
      invariant loc1 == |nums1| && loc2 <= |nums2| && count == loc1 + loc2 && result == Partial(u, left, count)
      invariant u[count..] == Merge(nums1[loc1..], nums2[loc2..])
      invariant total > 0 ==> count <= right
    {
      TakeRight(u, count, nums1[loc1..], nums2[loc2..]);
      assert nums2[loc2..][1..] == nums2[loc2 + 1..];
      var done: bool;
      done, result := Visit(nums2[loc2], count, left, right, result, u);
      if done {
        return result / 2.0;
      }
      count := count + 1;
      loc2 := loc2 + 1;
    }
    return 0.0;
  }

  // ---- the partition ----

  /** The value left of a cut, or the least integer. */
  function LeftMax(s: seq<i32>, i: int): i32
    requires 0 <= i <= |s|
  {
    if i == 0 then INT_MIN else s[i - 1]
  }

  function RightMin(s: seq<i32>, i: int): i32
    requires 0 <= i <= |s|
  {
    if i == |s| then INT_MAX else s[i]
  }

  function Max(a: int, b: int): int { if a >= b then a else b }

  function Min(a: int, b: int): int { if a <= b then a else b }

  /** 32-bit addition with wrap-around. */
  function Add32(a: int, b: int): i32 {
    (a + b + 0x8000_0000) % 0x1_0000_0000 - 0x8000_0000
  }

  /** Everything left of the two cuts is at most everything right of them. */
  predicate GoodCut(a: seq<i32>, b: seq<i32>, i: int, j: int)
    requires 0 <= i <= |a| && 0 <= j <= |b|
  {
    LeftMax(a, i) <= RightMin(b, j) && LeftMax(b, j) <= RightMin(a, i)
  }

  lemma SortedConcat(s: seq<int>, t: seq<int>)
    requires Sorted(s) && Sorted(t) && forall x :: x in s ==> AtLeast(x, t)
    ensures Sorted(s + t)
  {
    forall i, j | 0 <= i < j < |s + t| ensures (s + t)[i] <= (s + t)[j] {
      if i < |s| <= j {
        assert AtLeast(s[i], t) && t[j - |s|] in t;
      }
    }
  }

  lemma SortedSlices(s: seq<int>, i: nat)
    requires Sorted(s) && i <= |s|
    ensures Sorted(s[..i]) && Sorted(s[i..])
  {
  }

  lemma SplitElements(s: seq<int>, i: nat)
    requires i <= |s|
    ensures multiset(s) == multiset(s[..i]) + multiset(s[i..])
  {
    assert s == s[..i] + s[i..];
  }

  /** A good cut cuts the sorted union. */
  lemma CutUnion(a: seq<i32>, b: seq<i32>, i: nat, j: nat)
    requires Sorted(a) && Sorted(b) && i <= |a| && j <= |b| && GoodCut(a, b, i, j)
    ensures Merge(a, b) == Merge(a[..i], b[..j]) + Merge(a[i..], b[j..])
  {
    var front, back := Merge(a[..i], b[..j]), Merge(a[i..], b[j..]);
    forall x | x in front ensures AtLeast(x, back) {
      CutOrder(a, b, i, j, x);
    }
    hide Sorted, GoodCut, Merge, AtLeast;
    SortedSlices(a, i);
    SortedSlices(b, j);
    MergeElements(a[..i], b[..j]);
    MergeElements(a[i..], b[j..]);
    MergeSorted(a[..i], b[..j]);
    MergeSorted(a[i..], b[j..]);
    MergeElements(a, b);
    MergeSorted(a, b);
    SplitElements(a, i);
    SplitElements(b, j);
    SortedConcat(front, back);
    SortedUnique(Merge(a, b), front + back);
  }

  lemma CutOrder(a: seq<i32>, b: seq<i32>, i: nat, j: nat, x: int)
    requires Sorted(a) && Sorted(b) && i <= |a| && j <= |b| && GoodCut(a, b, i, j)
    requires x in Merge(a[..i], b[..j])
    ensures AtLeast(x, Merge(a[i..], b[j..]))
  {
    MergeHas(a[..i], b[..j], x);
    forall y | y in Merge(a[i..], b[j..]) ensures x <= y {
      MergeHas(a[i..], b[j..], y);
      CutValuesOrder(a, b, i, j, x, y);
    }
  }

  lemma CutValuesOrder(a: seq<i32>, b: seq<i32>, i: nat, j: nat, x: int, y: int)
    requires Sorted(a) && Sorted(b) && i <= |a| && j <= |b| && GoodCut(a, b, i, j)
    requires (x in a[..i] || x in b[..j]) && (y in a[i..] || y in b[j..])
    ensures x <= y
  {
    assert x in a[..i] ==> x <= LeftMax(a, i);
    assert x in b[..j] ==> x <= LeftMax(b, j);
    assert y in a[i..] ==> RightMin(a, i) <= y;
    assert y in b[j..] ==> RightMin(b, j) <= y;
  }

  /** The values next to a good cut are the greatest left and the least right of it. */
  lemma CutValues(a: seq<i32>, b: seq<i32>, i: nat, j: nat)
    requires Sorted(a) && Sorted(b) && i <= |a| && j <= |b| && GoodCut(a, b, i, j)
    ensures |Merge(a, b)| == |a| + |b|
    ensures i + j > 0 ==> Merge(a, b)[i + j - 1] == Max(LeftMax(a, i), LeftMax(b, j))
    ensures i + j < |a| + |b| ==> Merge(a, b)[i + j] == Min(RightMin(a, i), RightMin(b, j))
  {
    hide Merge, Sorted, GoodCut;
    CutUnion(a, b, i, j);
    MergeElements(a, b);
    MergeElements(a[..i], b[..j]);
    MergeElements(a[i..], b[j..]);
    SortedSlices(a, i);
    SortedSlices(b, j);
    var front, back := Merge(a[..i], b[..j]), Merge(a[i..], b[j..]);
    if i + j > 0 {
      GreatestLast(a[..i], b[..j]);
      assert Merge(a, b)[i + j - 1] == front[i + j - 1];
    }
    if i + j < |a| + |b| {
      LeastFirst(a[i..], b[j..]);
      assert Merge(a, b)[i + j] == back[0];
    }
  }

  lemma LastIsGreatest(s: seq<int>)
    requires Sorted(s) && s != []
    ensures AtMost(s, s[|s| - 1]) && s[|s| - 1] in s
  {
  }

  lemma GreatestLast(a: seq<i32>, b: seq<i32>)
    requires Sorted(a) && Sorted(b) && |a| + |b| > 0
    ensures |Merge(a, b)| == |a| + |b|
    ensures Merge(a, b)[|a| + |b| - 1] == Max(LeftMax(a, |a|), LeftMax(b, |b|))
  {
    hide Merge, Sorted;
    MergeElements(a, b);
    MergeSorted(a, b);
    var last := Merge(a, b)[|a| + |b| - 1];
    LastIsGreatest(Merge(a, b));
    MergeHas(a, b, last);
    if a != [] {
      LastIsGreatest(a);
      MergeHas(a, b, a[|a| - 1]);
    }
    if b != [] {
      LastIsGreatest(b);
      MergeHas(a, b, b[|b| - 1]);
    }
  }

  lemma LeastFirst(a: seq<i32>, b: seq<i32>)
    requires |a| + |b| > 0
    ensures |Merge(a, b)| > 0 && Merge(a, b)[0] == Min(RightMin(a, 0), RightMin(b, 0))
  {
  }

  lemma {:induction false} MergeFlips(a: seq<int>, b: seq<int>)
    requires Sorted(a) && Sorted(b)
    ensures Merge(a, b) == Merge(b, a)
  {
    MergeElements(a, b);
    MergeElements(b, a);
    MergeSorted(a, b);
    MergeSorted(b, a);
    SortedUnique(Merge(a, b), Merge(b, a));
  }

  /** What the second version returns for a union of at least one element: the median, with
      the two middle values of an even union added in 32 bits. */
  function PartitionResult(u: seq<int>): real
    requires u != []
  {
    if |u| % 2 == 1 then u[|u| / 2] as real
    else Halved(Add32(u[|u| / 2 - 1], u[|u| / 2]))
  }

  /** What the second version returns. */
  function CutReturn(u: seq<int>): real { if u == [] then -0.5 else PartitionResult(u) }

  /** The second version, shorter array first. */
  method CutMedian(nums1: seq<i32>, nums2: seq<i32>) returns (r: real)
    requires Sorted(nums1) && Sorted(nums2) && |nums1| <= |nums2|
    ensures r == CutReturn(Merge(nums1, nums2))
  {
    hide Merge, Sorted, Add32, CutReturn, Halved;
    var m, n := |nums1|, |nums2|;
    var left, right := 0, m;
    var totalLeft := (m + n + 1) / 2;
    while left <= right
      invariant 0 <= left <= m + 1 && -1 <= right <= m && left <= right + 1
      invariant left > 0 ==> LeftMax(nums2, totalLeft - (left - 1)) > RightMin(nums1, left - 1)
      invariant right < m ==> LeftMax(nums1, right + 1) > RightMin(nums2, totalLeft - (right + 1))
      decreases right - left
    {
      var i := (left + right) / 2;
      var j := totalLeft - i;
      assert 0 <= j <= n;
      var nums1LeftMax := if i == 0 then INT_MIN else nums1[i - 1];
      var nums1RightMin := if i == m then INT_MAX else nums1[i];
      var nums2LeftMax := if j == 0 then INT_MIN else nums2[j - 1];
      var nums2RightMin := if j == n then INT_MAX else nums2[j];
      if nums1LeftMax <= nums2RightMin && nums2LeftMax <= nums1RightMin {
        CutAnswers(nums1, nums2, i, j);
        if (m + n) % 2 == 1 {
          return Max(nums1LeftMax, nums2LeftMax) as real;
        } else {
          return Halved(Add32(Max(nums1LeftMax, nums2LeftMax), Min(nums1RightMin, nums2RightMin)));
        }
      } else if nums1LeftMax > nums2RightMin {
        right := i - 1;
      } else {
        left := i + 1;
      }
    }
    assert false;
  }

  /** What is returned at a good cut. */
  lemma CutAnswers(a: seq<i32>, b: seq<i32>, i: nat, j: nat)
    requires Sorted(a) && Sorted(b) && i <= |a| && j <= |b| && i + j == (|a| + |b| + 1) / 2 && GoodCut(a, b, i, j)
    ensures |Merge(a, b)| == |a| + |b|
    ensures var lo, hi := Max(LeftMax(a, i), LeftMax(b, j)), Min(RightMin(a, i), RightMin(b, j));
            var r := if (|a| + |b|) % 2 == 1 then lo as real else Halved(Add32(lo, hi));
            r == CutReturn(Merge(a, b))
  {
    hide Merge, Sorted, GoodCut, Add32, Max, Min, Halved;
    CutValues(a, b, i, j);
    if |a| + |b| == 0 {
      EmptyCut(a, b);
    } else {
      hide LeftMax, RightMin;
      Middle(|a| + |b|);
    }
  }

  lemma Middle(t: nat)
    ensures t % 2 == 1 ==> t / 2 == (t + 1) / 2 - 1
    ensures t % 2 == 0 ==> t / 2 == (t + 1) / 2
  {
  }

  lemma EmptyCut(a: seq<i32>, b: seq<i32>)
    requires a == [] && b == []
    ensures Halved(Add32(Max(LeftMax(a, 0), LeftMax(b, 0)), Min(RightMin(a, 0), RightMin(b, 0)))) == -0.5
  {
    NoValues();
  }

  lemma NoValues()
    ensures Halved(Add32(INT_MIN, INT_MAX)) == -0.5
  {
    assert Add32(INT_MIN, INT_MAX) == -1;
  }

  /** The second version. */
  method PartitionMedian(nums1: seq<i32>, nums2: seq<i32>) returns (r: real)
    requires Sorted(nums1) && Sorted(nums2)
    ensures r == CutReturn(Merge(nums1, nums2))
  {
    if |nums1| > |nums2| {
      MergeFlips(nums1, nums2);
      r := CutMedian(nums2, nums1);
    } else {
      r := CutMedian(nums1, nums2);
    }
  }

  /** The two middle values of an even union fit together into 32 bits. */
  predicate SumFits(u: seq<int>) {
    |u| > 0 && |u| % 2 == 0 ==> INT_MIN <= u[|u| / 2 - 1] + u[|u| / 2] <= INT_MAX
  }

  lemma PartitionExact(u: seq<int>)
    requires u != [] && forall k :: 0 <= k < |u| ==> INT_MIN <= u[k] <= INT_MAX
    ensures PartitionResult(u) == MedianOf(u) <==> SumFits(u)
  {
    if |u| % 2 == 1 {
      assert (|u| - 1) / 2 == |u| / 2;
    } else {
      assert (|u| - 1) / 2 == |u| / 2 - 1;
    }
  }

  /** When they do not fit, the partition is half a cycle of 32 bits off the median. */
  lemma PartitionWraps(u: seq<int>)
    requires u != [] && !SumFits(u) && forall k :: 0 <= k < |u| ==> INT_MIN <= u[k] <= INT_MAX
    ensures PartitionResult(u) == MedianOf(u) - 2147483648.0 || PartitionResult(u) == MedianOf(u) + 2147483648.0
    ensures PartitionResult(u) < MedianOf(u) <==> 0.0 < MedianOf(u)
  {
    assert (|u| - 1) / 2 == |u| / 2 - 1;
  }

  /** Two elements whose sum is out of range: the partition returns -1, the median is the
      greatest int. */
  lemma SumOverflows()
    ensures var u := [INT_MAX, INT_MAX];
            !SumFits(u) && PartitionResult(u) == -1.0 && MedianOf(u) == INT_MAX as real
  {
    assert Add32(INT_MAX, INT_MAX) == -2;
  }

  /** Both versions return the median of the sorted union, and the same value, exactly when
      there is an element and the two middle ones do not overflow. */
  method BothMedians(nums1: seq<i32>, nums2: seq<i32>, ghost u: seq<int>) returns (a: real, b: real)
    requires Sorted(nums1) && Sorted(nums2) && SortedUnion(u, nums1, nums2)
    ensures (if u == [] then a == 0.0 else a == MedianOf(u)) && b == CutReturn(u)
    ensures a == b <==> u != [] && SumFits(u)
  {
    UnionIsMerge(u, nums1, nums2);
    MergeElements(nums1, nums2);
    a := WalkMedian(nums1, nums2);
    b := PartitionMedian(nums1, nums2);
    if u != [] {
      forall k | 0 <= k < |u| ensures INT_MIN <= u[k] <= INT_MAX {
        assert u[k] in multiset(u);
        assert u[k] in nums1 || u[k] in nums2;
      }
      PartitionExact(u);
    }
  }
}
