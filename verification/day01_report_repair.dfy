/**
 * Day 1 (Report Repair): find two, then three, entries of the expense
 * report that sum to 2020. Part 1 scans once with a set of the entries seen
 * so far; part 2 tries every index triple i < j < k in lexicographic order.
 * Both stop at the first hit.
 */
module ReportRepair {
  import opened Wrappers

  const Target: int := 2020

  /** Some entry before index `i` complements entry `i` to 2020. */
  predicate HasEarlierComplement(nums: seq<int>, i: nat)
    requires i < |nums|
  {
    exists j :: 0 <= j < i && nums[j] == Target - nums[i]
  }

  /** The part 1 hit: the entry at `index` and its complement seen earlier. */
  datatype PairHit = PairHit(index: nat, num: int, complement: int)

  /**
   * The seen-set scan: before entry `i` is examined the set holds exactly the
   * entries at indices below `i`; the scan reports the first entry whose
   * complement was already seen.
   */
  method FindPair(nums: seq<int>) returns (r: Option<PairHit>)
    ensures r.Some? ==>
      && r.value.index < |nums|
      && r.value.num == nums[r.value.index]
      && r.value.complement == Target - r.value.num
      && HasEarlierComplement(nums, r.value.index)
      && forall i :: 0 <= i < r.value.index ==> !HasEarlierComplement(nums, i)
    ensures r.None? <==> forall i, j :: 0 <= j < i < |nums| ==> nums[j] + nums[i] != Target
  {
    var seen: set<int> := {};
    var i := 0;
    while i < |nums|
      invariant 0 <= i <= |nums|
      invariant seen == set k | 0 <= k < i :: nums[k]
      invariant forall k :: 0 <= k < i ==> !HasEarlierComplement(nums, k)
    {
      var num := nums[i];
      var complement := Target - num;
      if complement in seen {
        var j :| 0 <= j < i && nums[j] == complement;
        assert nums[j] + nums[i] == Target;
        return Some(PairHit(i, num, complement));
      }
      seen := seen + {num};
      i := i + 1;
    }
    assert forall i, j :: 0 <= j < i < |nums| ==> nums[j] + nums[i] != Target by {
      forall i, j | 0 <= j < i < |nums| ensures nums[j] + nums[i] != Target {
        assert !HasEarlierComplement(nums, i);
      }
    }
    return None;
  }

  /** Three distinct indices, in increasing order, whose entries sum to 2020. */
  predicate IsTriple(nums: seq<int>, a: int, b: int, c: int) {
    0 <= a < b < c < |nums| && nums[a] + nums[b] + nums[c] == Target
  }

  /** No triple comes lexicographically before `(i, j, k)`. */
  ghost predicate NoTripleBefore(nums: seq<int>, i: int, j: int, k: int) {
    forall a, b, c :: IsTriple(nums, a, b, c) ==> a > i || (a == i && (b > j || (b == j && c >= k)))
  }

  datatype TripleHit = TripleHit(i: nat, j: nat, k: nat)

  /**
   * The three nested loops: the first hit is the lexicographically least
   * index triple i < j < k whose entries sum to 2020.
   */
  method FindTriple(nums: seq<int>) returns (r: Option<TripleHit>)
    ensures r.Some? ==> IsTriple(nums, r.value.i, r.value.j, r.value.k) && NoTripleBefore(nums, r.value.i, r.value.j, r.value.k)
    ensures r.None? <==> forall a, b, c :: !IsTriple(nums, a, b, c)
  {
    var n := |nums|;
    var i := 0;
    while i < n
      invariant 0 <= i <= n
      invariant NoTripleBefore(nums, i, 0, 0)
    {
      var j := i + 1;
      while j < n
        invariant i + 1 <= j <= n
        invariant NoTripleBefore(nums, i, j, 0)
      {
        var k := j + 1;
        while k < n
          invariant j + 1 <= k <= n
          invariant NoTripleBefore(nums, i, j, k)
        {
          if nums[i] + nums[j] + nums[k] == Target {
            return Some(TripleHit(i, j, k));
          }
          k := k + 1;
        }
        j := j + 1;
      }
      i := i + 1;
    }
    return None;
  }
}
