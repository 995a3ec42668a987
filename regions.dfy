/**
 * Text-region merging (modules/text-regions.js).
 *
 * A region is a half-open span [index, index + length) over formula text.
 * mergeRegions sorts the regions with the sortRegion comparator, drops the
 * zero-length ones (which the comparator puts first) and coalesces every run
 * of regions that overlap or touch into its first member.
 */
module TextRegions {

  datatype TextRegion = TextRegion(index: int, length: nat)

  /** One past the last position of a region. */
  function End(r: TextRegion): int
  {
    r.index + r.length
  }

  /** The comparator sortRegion, with the source's three results -1, 0, +1. */
  function SortRegion(regA: TextRegion, regB: TextRegion): int
  {
    if regA.length == 0 then -1
    else if regB.length == 0 then 1
    else if regA.index < regB.index then -1
    else if regA.index > regB.index then 1
    else if End(regA) < End(regB) then -1
    else if End(regA) > End(regB) then 1
    else 0
  }

  /**
   * The order the comparator intends: zero-length regions first, then by
   * start, then by end.
   */
  predicate RegionLe(a: TextRegion, b: TextRegion)
  {
    a.length == 0 ||
    (b.length != 0 && (a.index < b.index || (a.index == b.index && End(a) <= End(b))))
  }

  predicate Sorted(s: seq<TextRegion>)
  {
    forall i, j :: 0 <= i < j < |s| ==> RegionLe(s[i], s[j])
  }

  /** Position p lies inside some region of s. */
  predicate Covers(s: seq<TextRegion>, p: int)
  {
    exists k :: 0 <= k < |s| && s[k].index <= p < End(s[k])
  }

  /** Every region ends strictly before the start of every later region. */
  predicate Separated(s: seq<TextRegion>)
  {
    forall j, k :: 0 <= j < k < |s| ==> End(s[j]) < s[k].index
  }

  /**
   * The comparator agrees with RegionLe: it answers "not after" exactly when
   * RegionLe holds, it answers 0 only for equal non-empty regions, and for two
   * non-empty regions swapping the arguments flips the answer.
   */
  lemma SortRegionOrder(a: TextRegion, b: TextRegion)
    ensures SortRegion(a, b) in {-1, 0, 1}
    ensures SortRegion(a, b) <= 0 <==> RegionLe(a, b)
    ensures SortRegion(a, b) == 0 <==> (a.length != 0 && a == b)
    ensures a.length != 0 && b.length != 0 ==> SortRegion(b, a) == -SortRegion(a, b)
    ensures a.length == 0 ==> SortRegion(a, b) == -1
    ensures a.length != 0 && b.length == 0 ==> SortRegion(a, b) == 1
  {
  }

  lemma RegionLeTotal(a: TextRegion, b: TextRegion)
    ensures RegionLe(a, b) || RegionLe(b, a)
  {
  }

  lemma RegionLeTrans(a: TextRegion, b: TextRegion, c: TextRegion)
    requires RegionLe(a, b) && RegionLe(b, c)
    ensures RegionLe(a, c)
  {
  }

  /** Insertion of one region into a sorted sequence, using the comparator. */
  function Insert(x: TextRegion, s: seq<TextRegion>): seq<TextRegion>
  {
    if s == [] then [x]
    else if SortRegion(x, s[0]) <= 0 then [x] + s
    else [s[0]] + Insert(x, s[1..])
  }

  /**
   * regions.sort(sortRegion): Array.prototype.sort is a library routine; it is
   * modelled as an insertion sort driven by the same comparator.
   */
  function SortRegions(s: seq<TextRegion>): seq<TextRegion>
  {
    if s == [] then [] else Insert(s[0], SortRegions(s[1..]))
  }

  lemma {:induction false} InsertPermutes(x: TextRegion, s: seq<TextRegion>)
    ensures multiset(Insert(x, s)) == multiset(s) + multiset{x}
  {
    if s != [] && SortRegion(x, s[0]) > 0 {
      InsertPermutes(x, s[1..]);
      assert s == [s[0]] + s[1..];
    }
  }

  lemma {:induction false} InsertSorted(x: TextRegion, s: seq<TextRegion>)
    requires Sorted(s)
    ensures Sorted(Insert(x, s))
  {
    SortRegionOrder(x, if s == [] then x else s[0]);
    if s != [] && SortRegion(x, s[0]) > 0 {
      RegionLeTotal(x, s[0]);
      assert Sorted(s[1..]);
      InsertSorted(x, s[1..]);
      InsertPermutes(x, s[1..]);
      var t := Insert(x, s[1..]);
      forall k | 0 <= k < |t|
        ensures RegionLe(s[0], t[k])
      {
        assert t[k] in multiset(t);
        assert t[k] in multiset(s[1..]) || t[k] == x;
        if t[k] != x {
          var j :| 0 <= j < |s[1..]| && s[1..][j] == t[k];
          assert s[j + 1] == t[k];
        }
      }
    } else if s != [] {
      forall k | 0 < k < |s|
        ensures RegionLe(x, s[k])
      {
        RegionLeTrans(x, s[0], s[k]);
      }
    }
  }

  /** The sort returns a sorted permutation of its input. */
  lemma {:induction false} SortRegionsCorrect(s: seq<TextRegion>)
    ensures Sorted(SortRegions(s))
    ensures multiset(SortRegions(s)) == multiset(s)
  {
    if s != [] {
      SortRegionsCorrect(s[1..]);
      InsertSorted(s[0], SortRegions(s[1..]));
      InsertPermutes(s[0], SortRegions(s[1..]));
      assert s == [s[0]] + s[1..];
    }
  }

  /** a and b cover the same positions. */
  ghost predicate SameCover(a: seq<TextRegion>, b: seq<TextRegion>)
  {
    forall p :: Covers(a, p) <==> Covers(b, p)
  }

  /** a covers exactly the positions of [start, end). */
  ghost predicate CoversExactly(a: seq<TextRegion>, start: int, end: int)
  {
    forall p :: (start <= p < end) <==> Covers(a, p)
  }

  predicate NonEmpty(s: seq<TextRegion>)
  {
    forall k :: 0 <= k < |s| ==> s[k].length > 0
  }

  predicate AscendingStarts(s: seq<TextRegion>)
  {
    forall a, b :: 0 <= a < b < |s| ==> s[a].index <= s[b].index
  }

  /** Every region of r starts where some region of s starts. */
  predicate StartsFrom(r: seq<TextRegion>, s: seq<TextRegion>)
  {
    forall k :: 0 <= k < |r| ==> exists j :: 0 <= j < |s| && s[j].index == r[k].index
  }

  lemma CoversConcat(a: seq<TextRegion>, b: seq<TextRegion>, p: int)
    ensures Covers(a + b, p) <==> Covers(a, p) || Covers(b, p)
  {
    if Covers(a + b, p) {
      var k :| 0 <= k < |a + b| && (a + b)[k].index <= p < End((a + b)[k]);
      if k >= |a| {
        assert b[k - |a|] == (a + b)[k];
      } else {
        assert a[k] == (a + b)[k];
      }
    }
    if Covers(a, p) {
      var k :| 0 <= k < |a| && a[k].index <= p < End(a[k]);
      assert (a + b)[k] == a[k];
    }
    if Covers(b, p) {
      var k :| 0 <= k < |b| && b[k].index <= p < End(b[k]);
      assert (a + b)[|a| + k] == b[k];
    }
  }

  /** Coverage depends only on which regions occur, not on their order. */
  lemma SameElementsSameCover(a: seq<TextRegion>, b: seq<TextRegion>)
    requires multiset(a) == multiset(b)
    ensures SameCover(a, b)
  {
    forall p
      ensures Covers(a, p) <==> Covers(b, p)
    {
      if Covers(a, p) {
        var k :| 0 <= k < |a| && a[k].index <= p < End(a[k]);
        assert a[k] in multiset(b);
        var j :| 0 <= j < |b| && b[j] == a[k];
      }
      if Covers(b, p) {
        var k :| 0 <= k < |b| && b[k].index <= p < End(b[k]);
        assert b[k] in multiset(a);
        var j :| 0 <= j < |a| && a[j] == b[k];
      }
    }
  }

  /**
   * Dropping the leading zero-length regions of a sorted sequence leaves
   * non-empty regions in ascending start order covering the same positions.
   */
  lemma DropZeroLength(sorted: seq<TextRegion>, i: nat)
    requires Sorted(sorted) && i <= |sorted|
    requires forall k :: 0 <= k < i ==> sorted[k].length == 0
    requires i < |sorted| ==> sorted[i].length != 0
    ensures NonEmpty(sorted[i..]) && AscendingStarts(sorted[i..])
    ensures SameCover(sorted[i..], sorted)
  {
    var s := sorted[i..];
    forall k | 0 <= k < |s|
      ensures s[k].length > 0
    {
      assert sorted[i + k] == s[k];
      if k > 0 {
        assert RegionLe(sorted[i], sorted[i + k]);
      }
    }
    forall a, b | 0 <= a < b < |s|
      ensures s[a].index <= s[b].index
    {
      assert sorted[i + a] == s[a] && sorted[i + b] == s[b];
      assert RegionLe(sorted[i + a], sorted[i + b]);
    }
    forall p
      ensures Covers(s, p) <==> Covers(sorted, p)
    {
      assert sorted == sorted[..i] + s;
      CoversConcat(sorted[..i], s, p);
      if Covers(sorted[..i], p) {
        var k :| 0 <= k < i && sorted[..i][k].index <= p < End(sorted[..i][k]);
        assert sorted[k].length == 0;
      }
    }
  }

  /** A region starting inside or just after [start, end) extends the run. */
  lemma ExtendRun(run: seq<TextRegion>, other: TextRegion, start: int, end: int)
    requires CoversExactly(run, start, end)
    requires start <= other.index <= end
    ensures CoversExactly(run + [other], start, if end < End(other) then End(other) else end)
  {
    forall p
      ensures (start <= p < (if end < End(other) then End(other) else end)) <==> Covers(run + [other], p)
    {
      CoversConcat(run, [other], p);
      assert Covers([other], p) <==> other.index <= p < End(other) by {
        if Covers([other], p) {
          var k :| 0 <= k < 1 && [other][k].index <= p < End([other][k]);
        }
        if other.index <= p < End(other) {
          assert [other][0] == other;
        }
      }
    }
  }

  /** The state of mergeRegions' outer loop: regions[..i] is finished. */
  ghost predicate MergeInvariant(regions: seq<TextRegion>, i: int, s: seq<TextRegion>, m: int)
  {
    && 0 <= i <= |regions| && i <= m <= |s|
    && regions[i..] == s[m..]
    && NonEmpty(regions[..i])
    && (forall j, k :: 0 <= j < i && j < k < |regions| ==> End(regions[j]) < regions[k].index)
    && SameCover(regions[..i], s[..m])
    && StartsFrom(regions[..i], s)
  }

  lemma MergeStart(s: seq<TextRegion>)
    ensures MergeInvariant(s, 0, s, 0)
  {
    assert s[..0] == [];
  }

  /** Facts shared by the three halves of one round of the outer loop. */
  ghost predicate MergeStepPre(before: seq<TextRegion>, i: int, num: int, s: seq<TextRegion>, m: int, start: int, end: int)
  {
    && NonEmpty(s) && AscendingStarts(s)
    && MergeInvariant(before, i, s, m)
    && 1 <= num && i + num <= |before|
    && start == before[i].index && start < end
    && CoversExactly(before[i..i + num], start, end)
    && (i + num < |before| ==> end < before[i + num].index)
  }

  lemma MergeStepSeparated(before: seq<TextRegion>, i: int, num: int, s: seq<TextRegion>, m: int, start: int, end: int)
    requires MergeStepPre(before, i, num, s, m, start, end)
    ensures var after := before[..i] + [TextRegion(start, end - start)] + before[i + num..];
      forall j, k :: 0 <= j < i + 1 && j < k < |after| ==> End(after[j]) < after[k].index
  {
    var merged := TextRegion(start, end - start);
    var after := before[..i] + [merged] + before[i + num..];
    forall j, k | 0 <= j < i + 1 && j < k < |after|
      ensures End(after[j]) < after[k].index
    {
      if k < i {
        assert after[j] == before[j] && after[k] == before[k];
      } else if k == i {
        assert after[j] == before[j] && after[k] == merged;
      } else {
        assert after[k] == before[k + num - 1];
        assert before[i..] == s[m..];
        assert before[k + num - 1] == s[m + k + num - 1 - i];
        if j == i {
          assert before[i + num] == s[m + num];
          if k + num - 1 != i + num {
            assert s[m + num].index <= s[m + k + num - 1 - i].index;
          }
        } else {
          assert after[j] == before[j];
        }
      }
    }
  }

  lemma MergeStepCover(before: seq<TextRegion>, i: int, num: int, s: seq<TextRegion>, m: int, start: int, end: int)
    requires MergeStepPre(before, i, num, s, m, start, end)
    ensures SameCover(before[..i] + [TextRegion(start, end - start)], s[..m + num])
  {
    var merged := TextRegion(start, end - start);
    var done := before[..i] + [merged];
    var source := s[..m + num];
    assert before[i..] == s[m..];
    assert before[i..i + num] == s[m..m + num];
    forall p
      ensures Covers(done, p) <==> Covers(source, p)
    {
      CoversConcat(before[..i], [merged], p);
      assert source == s[..m] + s[m..m + num];
      CoversConcat(s[..m], s[m..m + num], p);
      if Covers([merged], p) {
        var k :| 0 <= k < 1 && [merged][k].index <= p < End([merged][k]);
      }
      if start <= p < end {
        assert [merged][0] == merged;
      }
    }
  }

  lemma MergeStepStarts(before: seq<TextRegion>, i: int, num: int, s: seq<TextRegion>, m: int, start: int, end: int)
    requires MergeStepPre(before, i, num, s, m, start, end)
    ensures NonEmpty(before[..i] + [TextRegion(start, end - start)])
    ensures StartsFrom(before[..i] + [TextRegion(start, end - start)], s)
  {
    var done := before[..i] + [TextRegion(start, end - start)];
    forall k | 0 <= k < |done|
      ensures done[k].length > 0
      ensures exists j :: 0 <= j < |s| && s[j].index == done[k].index
    {
      if k < i {
        assert done[k] == before[..i][k];
      } else {
        assert before[i..] == s[m..];
        assert before[i] == s[m];
      }
    }
  }

  /**
   * One round of the outer loop: the run regions[i..i+num] covering exactly
   * [start, end) is replaced by one region, and the invariant moves on.
   */
  lemma MergeStep(before: seq<TextRegion>, i: int, num: int, s: seq<TextRegion>, m: int, start: int, end: int,
                   after: seq<TextRegion>, i': int, m': int)
    requires MergeStepPre(before, i, num, s, m, start, end)
    requires after == before[..i] + [TextRegion(start, end - start)] + before[i + num..]
    requires i' == i + 1 && m' == m + num
    ensures MergeInvariant(after, i', s, m')
  {
    var merged := TextRegion(start, end - start);
    assert after[i + 1..] == before[i + num..];
    assert before[i..] == s[m..];
    assert before[i + num..] == s[m + num..];
    assert after[..i + 1] == before[..i] + [merged];
    MergeStepSeparated(before, i, num, s, m, start, end);
    MergeStepCover(before, i, num, s, m, start, end);
    MergeStepStarts(before, i, num, s, m, start, end);
  }

  /**
   * The facts the merging loop starts from: after sorting and dropping the
   * leading zero-length regions, what is left is non-empty, in ascending start
   * order, covers what the input covers and holds only input regions.
   */
  lemma MergePrepared(input: seq<TextRegion>, i: nat)
    requires i <= |SortRegions(input)|
    requires forall k :: 0 <= k < i ==> SortRegions(input)[k].length == 0
    requires i < |SortRegions(input)| ==> SortRegions(input)[i].length != 0
    ensures var s := SortRegions(input)[i..];
      && NonEmpty(s) && AscendingStarts(s) && SameCover(s, input) && |s| <= |input|
      && (forall k :: 0 <= k < |s| ==> s[k] in input)
  {
    var sorted := SortRegions(input);
    SortRegionsCorrect(input);
    assert |sorted| == |input| by {
      assert |multiset(sorted)| == |multiset(input)|;
    }
    DropZeroLength(sorted, i);
    SameElementsSameCover(sorted, input);
    forall k | 0 <= k < |sorted[i..]|
      ensures sorted[i..][k] in input
    {
      assert sorted[i..][k] == sorted[i + k];
      assert sorted[i + k] in multiset(input);
    }
  }

  /** When the outer loop ends, its invariant gives the promised result. */
  lemma MergeFinish(regions: seq<TextRegion>, s: seq<TextRegion>, m: int)
    requires MergeInvariant(regions, |regions|, s, m)
    ensures NonEmpty(regions) && Separated(regions) && SameCover(regions, s)
    ensures |regions| <= |s| && StartsFrom(regions, s)
  {
    assert s[m..] == [];
    assert s[..m] == s && regions[..|regions|] == regions;
  }

  /** Facts about the merged prepared regions carry over to the input they came from. */
  lemma MergeChain(regions: seq<TextRegion>, s: seq<TextRegion>, input: seq<TextRegion>)
    requires SameCover(regions, s) && StartsFrom(regions, s)
    requires SameCover(s, input) && (forall k :: 0 <= k < |s| ==> s[k] in input)
    ensures SameCover(regions, input) && StartsFrom(regions, input)
  {
    forall p
      ensures Covers(regions, p) <==> Covers(input, p)
    {
      assert Covers(regions, p) <==> Covers(s, p);
    }
    forall k | 0 <= k < |regions|
      ensures exists j :: 0 <= j < |input| && input[j].index == regions[k].index
    {
      var x := regions[k];
      assert exists j :: 0 <= j < |s| && s[j].index == x.index;
      var j :| 0 <= j < |s| && s[j].index == x.index;
      assert s[j] in input;
      var j' :| 0 <= j' < |input| && input[j'] == s[j];
      assert input[j'].index == x.index;
    }
    assert StartsFrom(regions, input);
  }

  /**
   * The inner loop of mergeRegions: starting from the non-empty region at i,
   * it counts the regions that overlap or touch the growing run and returns
   * their number and the run's end. The run covers exactly [start, end), and
   * the region after it, if any, starts strictly after end.
   */
  method ScanRun(regions: seq<TextRegion>, i: nat) returns (num: nat, end: int)
    requires i < |regions| && regions[i].length > 0
    requires forall k :: i < k < |regions| ==> regions[i].index <= regions[k].index
    ensures 1 <= num && i + num <= |regions|
    ensures regions[i].index < end
    ensures CoversExactly(regions[i..i + num], regions[i].index, end)
    ensures i + num < |regions| ==> end < regions[i + num].index
    ensures num == 1 ==> end == End(regions[i])
  {
    var reg := regions[i];
    var start := reg.index;
    end := start + reg.length;
    num := 1;
    assert regions[i..i + 1] == [reg];
    ExtendRun([], reg, start, start);
    while i + num < |regions|
      invariant 1 <= num && i + num <= |regions|
      invariant start < end
      invariant CoversExactly(regions[i..i + num], start, end)
      invariant num == 1 ==> end == start + reg.length
    {
      var other := regions[i + num];
      var otherStart := other.index;
      if otherStart <= end {
        assert regions[i..i + num + 1] == regions[i..i + num] + [other];
        ExtendRun(regions[i..i + num], other, start, end);
        if end < otherStart + other.length {
          end := otherStart + other.length;
        }
        num := num + 1;
      } else {
        break;
      }
    }
  }

  /** The region the outer loop is at is non-empty and starts no later than those after it. */
  lemma RunHead(regions: seq<TextRegion>, i: int, s: seq<TextRegion>, m: int)
    requires NonEmpty(s) && AscendingStarts(s)
    requires MergeInvariant(regions, i, s, m) && i < |regions|
    ensures regions[i].length > 0
    ensures forall k :: i < k < |regions| ==> regions[i].index <= regions[k].index
  {
    assert regions[i..] == s[m..];
    assert regions[i] == s[m];
    forall k | i < k < |regions|
      ensures regions[i].index <= regions[k].index
    {
      assert regions[k] == s[m + k - i];
    }
  }

  /**
   * The end of one round of the outer loop: when the run has more than one
   * region, its first region is widened to [start, end) and the rest of the
   * run is spliced out.
   */
  method CollapseRun(regions: seq<TextRegion>, i: nat, num: nat, end: int) returns (result: seq<TextRegion>)
    requires 1 <= num && i + num <= |regions| && regions[i].index < end
    requires num == 1 ==> end == End(regions[i])
    ensures result == regions[..i] + [TextRegion(regions[i].index, end - regions[i].index)] + regions[i + num..]
  {
    result := regions;
    var n := num;
    if n != 1 {
      result := result[i := TextRegion(result[i].index, end - result[i].index)];
      n := n - 1;
      result := result[..i + 1] + result[i + 1 + n..];
      assert result[..i + 1] == regions[..i] + [TextRegion(regions[i].index, end - regions[i].index)];
    } else {
      assert regions == regions[..i] + [regions[i]] + regions[i + 1..];
    }
  }

  /**
   * mergeRegions, on the value of the array: the result holds no zero-length
   * region, its regions are separated (each starts strictly after the previous
   * one ends, so touching regions were merged), it covers exactly the
   * positions the input covers, it is no longer than the input, and every
   * result region starts where some input region starts (the first region of
   * each merged run is edited in place, the rest are spliced out).
   */
  method MergeRegions(input: seq<TextRegion>) returns (regions: seq<TextRegion>)
    ensures NonEmpty(regions)
    ensures Separated(regions)
    ensures SameCover(regions, input)
    ensures |regions| <= |input|
    ensures StartsFrom(regions, input)
  {
    regions := SortRegions(input);
    var i := 0;
    while i < |regions| && regions[i].length == 0
      invariant 0 <= i <= |regions|
      invariant forall k :: 0 <= k < i ==> regions[k].length == 0
    {
      i := i + 1;
    }
    MergePrepared(input, i);
    regions := regions[i..];
    ghost var s := regions;
    regions := MergeRuns(regions);
    MergeChain(regions, s, input);
  }

  /**
   * The outer loop of mergeRegions, over the sorted regions without the
   * zero-length ones: every run of overlapping or touching regions becomes
   * its first region, widened to the run's end.
   */
  method MergeRuns(s: seq<TextRegion>) returns (regions: seq<TextRegion>)
    requires NonEmpty(s) && AscendingStarts(s)
    ensures NonEmpty(regions) && Separated(regions) && SameCover(regions, s)
    ensures |regions| <= |s| && StartsFrom(regions, s)
  {
    regions := s;
    ghost var m := 0;
    var i := 0;
    MergeStart(s);
    while i < |regions|
      invariant MergeInvariant(regions, i, s, m)
    {
      var start := regions[i].index;
      RunHead(regions, i, s, m);
      var num, end := ScanRun(regions, i);
      ghost var before := regions;
      regions := CollapseRun(regions, i, num, end);
      ghost var m0, i0 := m, i;
      m := m + num;
      i := i + 1;
      MergeStep(before, i0, num, s, m0, start, end, regions, i, m);
    }
    MergeFinish(regions, s, m);
  }
}
