/**
 * Day 5 (Binary Boarding): a boarding pass is seven F/B letters selecting
 * the row and three L/R letters selecting the column; the seat ID is
 * `row * 8 + col`. Part 1 is the highest ID, part 2 the first missing ID
 * after sorting.
 */
module BoardingPass {
  import opened Wrappers
  import opened JsStrings

  // ---------------------------------------------------------------------
  // Decoding
  // ---------------------------------------------------------------------

  function Min(a: nat, b: nat): nat { if a < b then a else b }

  /** `pass.slice(0, 7).replace(/F/g, "0").replace(/B/g, "1")`. */
  function RowBits(pass: string): string {
    ReplaceAll(ReplaceAll(pass[..Min(7, |pass|)], 'F', '0'), 'B', '1')
  }

  /** `pass.slice(7).replace(/L/g, "0").replace(/R/g, "1")`. */
  function ColBits(pass: string): string {
    ReplaceAll(ReplaceAll(pass[Min(7, |pass|)..], 'L', '0'), 'R', '1')
  }

  /**
   * `seatIdFromPass(pass)`, each half read by `parseInt(bits, 2)`. A half
   * that does not start with a binary digit is NaN, and so is the ID
   * (`None`).
   */
  function SeatId(pass: string): Option<nat> {
    match (ParseBinaryPrefix(RowBits(pass)), ParseBinaryPrefix(ColBits(pass)))
    case (Some(row), Some(col)) => Some(row * 8 + col)
    case _ => None
  }

  /** A pass of seven F/B letters followed by three L/R letters. */
  predicate WellFormed(pass: string) {
    |pass| == 10
    && (forall i :: 0 <= i < 7 ==> pass[i] == 'F' || pass[i] == 'B')
    && (forall i :: 7 <= i < 10 ==> pass[i] == 'L' || pass[i] == 'R')
  }

  /** The whole pass read as ten bits: F and L are 0, B and R are 1. */
  function PassBits(pass: string): string {
    seq(|pass|, i requires 0 <= i < |pass| => if pass[i] == 'B' || pass[i] == 'R' then '1' else '0')
  }

  lemma {:induction false} BinaryConcat(a: string, b: string)
    requires AllBits(a) && AllBits(b)
    ensures AllBits(a + b)
    ensures BinaryValue(a + b) == BinaryValue(a) * Pow2(|b|) + BinaryValue(b)
    decreases |b|
  {
    if |b| > 0 {
      var b' := b[..|b| - 1];
      var bit := if b[|b| - 1] == '1' then 1 else 0;
      assert AllBits(a + b) && BinaryValue(a + b) == BinaryValue(a + b') * 2 + bit by {
        assert (a + b)[..|a + b| - 1] == a + b';
      }
      BinaryConcat(a, b');
      ShiftArith(BinaryValue(a), Pow2(|b'|), BinaryValue(b'), bit);
    } else {
      assert a + b == a;
    }
  }

  lemma ShiftArith(x: nat, p: nat, y: nat, bit: nat)
    ensures (x * p + y) * 2 + bit == x * (p * 2) + (y * 2 + bit)
  {
  }

  lemma RowColBits(pass: string)
    requires WellFormed(pass)
    ensures RowBits(pass) == PassBits(pass)[..7] && ColBits(pass) == PassBits(pass)[7..]
    ensures AllBits(PassBits(pass)) && |RowBits(pass)| == 7 && |ColBits(pass)| == 3
  {
  }

  /**
   * On a well-formed pass the row is below 128, the column below 8, and the
   * seat ID is the ten-bit value of the whole pass, hence below 1024.
   */
  lemma WellFormedSeatId(pass: string)
    requires WellFormed(pass)
    ensures ParseBinaryPrefix(RowBits(pass)).Some? && ParseBinaryPrefix(RowBits(pass)).value < 128
    ensures ParseBinaryPrefix(ColBits(pass)).Some? && ParseBinaryPrefix(ColBits(pass)).value < 8
    ensures AllBits(PassBits(pass)) && SeatId(pass) == Some(BinaryValue(PassBits(pass)))
    ensures SeatId(pass).value < 1024
  {
    RowColBits(pass);
    var row, col := RowBits(pass), ColBits(pass);
    BinaryValueBound(row);
    BinaryValueBound(col);
    SmallPowers();
    BinaryConcat(row, col);
    assert PassBits(pass) == row + col;
  }

  // ---------------------------------------------------------------------
  // Encoding, the inverse of decoding
  // ---------------------------------------------------------------------

  /** The low `width` bits of `n`, most significant first. */
  function ToBits(n: nat, width: nat): (s: string)
    ensures |s| == width && AllBits(s)
  {
    if width == 0 then "" else ToBits(n / 2, width - 1) + [if n % 2 == 1 then '1' else '0']
  }

  lemma {:induction false} ToBitsValue(n: nat, width: nat)
    requires n < Pow2(width)
    ensures BinaryValue(ToBits(n, width)) == n
  {
    if width > 0 {
      var s := ToBits(n, width);
      var half, low := n / 2, n % 2;
      assert n == half * 2 + low && half < Pow2(width - 1);
      assert BinaryValue(s) == BinaryValue(ToBits(half, width - 1)) * 2 + low by {
        assert s[..width - 1] == ToBits(half, width - 1);
      }
      ToBitsValue(half, width - 1);
    }
  }

  lemma {:induction false} BitsToBits(s: string)
    requires AllBits(s)
    ensures ToBits(BinaryValue(s), |s|) == s
  {
    if |s| > 0 {
      var front := s[..|s| - 1];
      BitsToBits(front);
      assert s == front + [s[|s| - 1]];
    }
  }

  /** Spells bits with `zero` for 0 and `one` for 1. */
  function Spell(bits: string, zero: char, one: char): (s: string)
    ensures |s| == |bits|
  {
    seq(|bits|, i requires 0 <= i < |bits| => if bits[i] == '1' then one else zero)
  }

  /** The boarding pass of a seat ID below 1024. */
  function Encode(id: nat): (pass: string)
    requires id < 1024
    ensures WellFormed(pass)
  {
    Spell(ToBits(id / 8, 7), 'F', 'B') + Spell(ToBits(id % 8, 3), 'L', 'R')
  }

  /** Reading spelled bits back with `replace` gives the bits. */
  lemma UnSpell(bits: string, zero: char, one: char)
    requires AllBits(bits) && zero != one && one != '0'
    ensures ReplaceAll(ReplaceAll(Spell(bits, zero, one), zero, '0'), one, '1') == bits
  {
  }

  lemma EncodeHalves(id: nat)
    requires id < 1024
    ensures RowBits(Encode(id)) == ToBits(id / 8, 7)
    ensures ColBits(Encode(id)) == ToBits(id % 8, 3)
  {
    var pass := Encode(id);
    var rowBits, colBits := ToBits(id / 8, 7), ToBits(id % 8, 3);
    assert pass[..7] == Spell(rowBits, 'F', 'B') && pass[7..] == Spell(colBits, 'L', 'R');
    UnSpell(rowBits, 'F', 'B');
    UnSpell(colBits, 'L', 'R');
  }

  lemma SplitId(id: nat)
    requires id < 1024
    ensures id / 8 < 128 && id % 8 < 8 && id == id / 8 * 8 + id % 8
  {
  }

  /** `parseInt` reads back the bits of a value that fits. */
  lemma ParseToBits(n: nat, width: nat)
    requires width > 0 && n < Pow2(width)
    ensures ParseBinaryPrefix(ToBits(n, width)) == Some(n)
  {
    ToBitsValue(n, width);
  }

  lemma SmallPowers()
    ensures Pow2(3) == 8 && Pow2(7) == 128
  {
  }

  lemma SeatIdOf(pass: string, row: nat, col: nat)
    requires ParseBinaryPrefix(RowBits(pass)) == Some(row)
    requires ParseBinaryPrefix(ColBits(pass)) == Some(col)
    ensures SeatId(pass) == Some(row * 8 + col)
  {
  }

  lemma EncodedHalvesParse(id: nat)
    requires id < 1024
    ensures ParseBinaryPrefix(RowBits(Encode(id))) == Some(id / 8)
    ensures ParseBinaryPrefix(ColBits(Encode(id))) == Some(id % 8)
  {
    SplitId(id);
    EncodeHalves(id);
    SmallPowers();
    ParseToBits(id / 8, 7);
    ParseToBits(id % 8, 3);
  }

  /** Encoding then decoding gives back the seat ID. */
  lemma DecodeEncode(id: nat)
    requires id < 1024
    ensures SeatId(Encode(id)) == Some(id)
  {
    EncodedHalvesParse(id);
    SeatIdOf(Encode(id), id / 8, id % 8);
    SplitId(id);
  }

  /** Decoding then encoding gives back a well-formed pass. */
  lemma EncodeDecode(pass: string)
    requires WellFormed(pass)
    ensures SeatId(pass).value < 1024 && Encode(SeatId(pass).value) == pass
  {
    WellFormedSeatId(pass);
    RowColBits(pass);
    var row, col := RowBits(pass), ColBits(pass);
    var r, c := BinaryValue(row), BinaryValue(col);
    var id := SeatId(pass).value;
    assert id == r * 8 + c && c < 8;
    assert id / 8 == r && id % 8 == c;
    BitsToBits(row);
    BitsToBits(col);
    assert Spell(row, 'F', 'B') == pass[..7];
    assert Spell(col, 'L', 'R') == pass[7..];
    assert pass == pass[..7] + pass[7..];
  }

  /** Distinct well-formed passes have distinct seat IDs. */
  lemma SeatIdInjective(p: string, q: string)
    requires WellFormed(p) && WellFormed(q) && SeatId(p) == SeatId(q)
    ensures p == q
  {
    EncodeDecode(p);
    EncodeDecode(q);
  }

  // ---------------------------------------------------------------------
  // Part 1: the highest ID
  // ---------------------------------------------------------------------

  /** `Math.max(...ids)`; the maximum of no IDs is -Infinity (`None`). */
  method MaxId(ids: seq<nat>) returns (m: Option<nat>)
    ensures m.None? <==> |ids| == 0
    ensures m.Some? ==> m.value in ids && forall k :: 0 <= k < |ids| ==> ids[k] <= m.value
  {
    if |ids| == 0 {
      return None;
    }
    var best := ids[0];
    var i := 1;
    while i < |ids|
      invariant 1 <= i <= |ids|
      invariant best in ids[..i]
      invariant forall k :: 0 <= k < i ==> ids[k] <= best
    {
      if ids[i] > best {
        best := ids[i];
      }
      i := i + 1;
    }
    assert ids[..i] == ids;
    m := Some(best);
  }

  // ---------------------------------------------------------------------
  // Part 2: the first missing ID
  // ---------------------------------------------------------------------

  predicate Sorted(s: seq<int>) {
    forall i, j :: 0 <= i < j < |s| ==> s[i] <= s[j]
  }

  ghost predicate NoDuplicates(s: seq<int>) {
    forall x :: multiset(s)[x] <= 1
  }

  function Insert(x: int, s: seq<int>): (r: seq<int>)
    requires Sorted(s)
    ensures Sorted(r) && multiset(r) == multiset(s) + multiset{x}
  {
    if |s| == 0 || x <= s[0] then
      ConsSorted(x, s);
      [x] + s
    else
      var rest := Insert(x, s[1..]);
      assert s == [s[0]] + s[1..];
      LowerBound(s[0], x, s[1..], rest);
      ConsSorted(s[0], rest);
      [s[0]] + rest
  }

  /** A sorted list stays sorted under a head no larger than any element. */
  lemma ConsSorted(a: int, t: seq<int>)
    requires Sorted(t) && (|t| == 0 || a <= t[0])
    ensures Sorted([a] + t)
  {
  }

  lemma LowerBound(lo: int, x: int, s: seq<int>, r: seq<int>)
    requires lo <= x && (forall k :: 0 <= k < |s| ==> lo <= s[k])
    requires multiset(r) == multiset(s) + multiset{x}
    ensures forall k :: 0 <= k < |r| ==> lo <= r[k]
  {
    forall k | 0 <= k < |r|
      ensures lo <= r[k]
    {
      assert r[k] in multiset(r);
      if r[k] != x {
        assert r[k] in multiset(s);
      }
    }
  }

  /** `ids.sort((a, b) => a - b)`: ascending order, the same multiset of IDs. */
  function SortAscending(s: seq<int>): (r: seq<int>)
    ensures Sorted(r) && multiset(r) == multiset(s)
  {
    if |s| == 0 then []
    else
      assert s == [s[0]] + s[1..];
      Insert(s[0], SortAscending(s[1..]))
  }

  /** Position `i` starts a gap: the next ID is not one more. */
  predicate GapAt(s: seq<int>, i: nat)
    requires i + 1 < |s|
  {
    s[i + 1] != s[i] + 1
  }

  /**
   * The loop of part 2: `current + 1` for the first adjacent pair whose
   * next ID is not `current + 1`, or `null` (`None`) when there is none.
   */
  method FindGap(s: seq<int>) returns (r: Option<int>)
    ensures r.None? <==> forall i :: 0 <= i < |s| - 1 ==> !GapAt(s, i)
    ensures r.Some? ==> exists i :: 0 <= i < |s| - 1 && GapAt(s, i) && r.value == s[i] + 1
                                    && forall j :: 0 <= j < i ==> !GapAt(s, j)
  {
    var i := 0;
    while i < |s| - 1
      invariant 0 <= i <= if |s| == 0 then 0 else |s| - 1
      invariant forall j :: 0 <= j < i ==> !GapAt(s, j)
    {
      if s[i + 1] != s[i] + 1 {
        assert GapAt(s, i);
        return Some(s[i] + 1);
      }
      i := i + 1;
    }
    return None;
  }

  lemma {:induction false} StrictWhenDistinct(s: seq<int>, i: nat, j: nat)
    requires Sorted(s) && NoDuplicates(s) && i < j < |s|
    ensures s[i] < s[j]
  {
    assert s == s[..j] + s[j..];
    assert s[i] in multiset(s[..j]) by {
      assert s[..j][i] == s[i];
    }
    assert s[j] in multiset(s[j..]) by {
      assert s[j..][0] == s[j];
    }
    assert multiset(s) == multiset(s[..j]) + multiset(s[j..]);
    assert multiset(s)[s[j]] == multiset(s[..j])[s[j]] + multiset(s[j..])[s[j]];
    assert multiset(s)[s[j]] <= 1;
    assert multiset(s[..j])[s[j]] == 0;
    assert s[i] != s[j];
  }

  /** With no gap before position `i`, the IDs up to `i` are consecutive. */
  lemma {:induction false} ConsecutiveBefore(s: seq<int>, i: nat)
    requires i < |s|
    requires forall j :: 0 <= j < i ==> !GapAt(s, j)
    ensures forall k :: 0 <= k <= i ==> s[k] == s[0] + k
  {
    if i > 0 {
      ConsecutiveBefore(s, i - 1);
      assert !GapAt(s, i - 1);
    }
  }

  /**
   * On sorted IDs without duplicates, the ID found is the smallest one
   * missing above the lowest ID: it is absent, and every ID from the
   * lowest up to it is present.
   */
  lemma GapIsSmallestMissing(s: seq<int>, i: nat)
    requires Sorted(s) && NoDuplicates(s)
    requires i + 1 < |s| && GapAt(s, i) && forall j :: 0 <= j < i ==> !GapAt(s, j)
    ensures s[i] + 1 !in s
    ensures s[0] < s[i] + 1
    ensures forall v :: s[0] <= v < s[i] + 1 ==> v in s
  {
    ConsecutiveBefore(s, i);
    StrictWhenDistinct(s, i, i + 1);
    forall k | 0 <= k < |s|
      ensures s[k] != s[i] + 1
    {
      if k > i + 1 {
        StrictWhenDistinct(s, i + 1, k);
      }
    }
    forall v | s[0] <= v < s[i] + 1
      ensures v in s
    {
      assert s[v - s[0]] == v;
    }
  }

  /** Without any gap, the sorted IDs form one consecutive run. */
  lemma NoGapConsecutive(s: seq<int>)
    requires |s| > 0 && forall i :: 0 <= i < |s| - 1 ==> !GapAt(s, i)
    ensures forall k :: 0 <= k < |s| ==> s[k] == s[0] + k
  {
    ConsecutiveBefore(s, |s| - 1);
  }

  lemma SortedBounds(s: seq<int>, x: int)
    requires Sorted(s) && x in s
    ensures s[0] <= x <= s[|s| - 1]
  {
  }

  /** `v` is at or above some ID. */
  predicate AboveSome(ids: seq<int>, v: int) {
    exists k :: 0 <= k < |ids| && ids[k] <= v
  }

  /** `v` is at or below some ID. */
  predicate BelowSome(ids: seq<int>, v: int) {
    exists k :: 0 <= k < |ids| && v <= ids[k]
  }

  /** Some value between two IDs is not an ID. */
  ghost predicate HasHole(ids: seq<int>) {
    exists v :: AboveSome(ids, v) && BelowSome(ids, v) && v !in ids
  }

  /** The gap case of part 2, stated about the unsorted IDs. */
  lemma GapCase(ids: seq<int>, sorted: seq<int>, i: nat)
    requires Sorted(sorted) && multiset(sorted) == multiset(ids) && NoDuplicates(ids)
    requires i + 1 < |sorted| && GapAt(sorted, i) && forall j :: 0 <= j < i ==> !GapAt(sorted, j)
    ensures sorted[i] + 1 !in ids && AboveSome(ids, sorted[i]) && BelowSome(ids, sorted[i] + 1)
    ensures forall v :: v < sorted[i] + 1 && AboveSome(ids, v) ==> v in ids
  {
    assert forall v :: v in sorted <==> v in ids by {
      assert forall v :: v in sorted <==> v in multiset(sorted);
    }
    GapIsSmallestMissing(sorted, i);
    assert sorted[i] in sorted;
    assert sorted[i] in ids;
    StrictWhenDistinct(sorted, i, i + 1);
    assert sorted[i + 1] in sorted;
    assert sorted[i + 1] in ids;
    forall v | v < sorted[i] + 1 && AboveSome(ids, v)
      ensures v in ids
    {
      var k :| 0 <= k < |ids| && ids[k] <= v;
      SortedBounds(sorted, ids[k]);
    }
  }

  /** The no-gap case of part 2, stated about the unsorted IDs. */
  lemma NoGapCase(ids: seq<int>, sorted: seq<int>)
    requires Sorted(sorted) && multiset(sorted) == multiset(ids)
    requires forall i :: 0 <= i < |sorted| - 1 ==> !GapAt(sorted, i)
    ensures forall v :: AboveSome(ids, v) && BelowSome(ids, v) ==> v in ids
  {
    assert forall v :: v in sorted <==> v in ids by {
      assert forall v :: v in sorted <==> v in multiset(sorted);
    }
    if |sorted| > 0 {
      NoGapConsecutive(sorted);
    }
    forall v | AboveSome(ids, v) && BelowSome(ids, v)
      ensures v in ids
    {
      var a :| 0 <= a < |ids| && ids[a] <= v;
      var b :| 0 <= b < |ids| && v <= ids[b];
      SortedBounds(sorted, ids[a]);
      SortedBounds(sorted, ids[b]);
      assert sorted[v - sorted[0]] == v;
    }
  }

  /**
   * Part 2: sort the IDs, then look for the first gap. When the IDs have no
   * duplicates, the seat found is the smallest ID missing above the lowest
   * one, and it lies below the highest one; when there is no gap, the IDs
   * form one consecutive run. For distinct IDs a seat is therefore reported
   * exactly when the run has a hole.
   */
  method MissingSeat(ids: seq<int>) returns (r: Option<int>)
    ensures NoDuplicates(ids) && r.Some? ==>
      r.value !in ids && AboveSome(ids, r.value - 1) && BelowSome(ids, r.value)
      && forall v :: v < r.value && AboveSome(ids, v) ==> v in ids
    ensures r.None? ==> forall v :: AboveSome(ids, v) && BelowSome(ids, v) ==> v in ids
    ensures NoDuplicates(ids) ==> (r.Some? <==> HasHole(ids))
  {
    var sorted := SortAscending(ids);
    r := FindGap(sorted);
    GapResult(ids, sorted, r);
  }

  /** What the gap search over the sorted IDs says about the IDs themselves. */
  lemma GapResult(ids: seq<int>, sorted: seq<int>, r: Option<int>)
    requires Sorted(sorted) && multiset(sorted) == multiset(ids)
    requires r.None? <==> forall i :: 0 <= i < |sorted| - 1 ==> !GapAt(sorted, i)
    requires r.Some? ==> exists i :: 0 <= i < |sorted| - 1 && GapAt(sorted, i) && r.value == sorted[i] + 1
                                     && forall j :: 0 <= j < i ==> !GapAt(sorted, j)
    ensures NoDuplicates(ids) && r.Some? ==>
      r.value !in ids && AboveSome(ids, r.value - 1) && BelowSome(ids, r.value)
      && forall v :: v < r.value && AboveSome(ids, v) ==> v in ids
    ensures r.None? ==> forall v :: AboveSome(ids, v) && BelowSome(ids, v) ==> v in ids
    ensures NoDuplicates(ids) ==> (r.Some? <==> HasHole(ids))
  {
    if r.Some? && NoDuplicates(ids) {
      var i :| 0 <= i < |sorted| - 1 && GapAt(sorted, i) && r.value == sorted[i] + 1 && forall j :: 0 <= j < i ==> !GapAt(sorted, j);
      GapCase(ids, sorted, i);
      var k :| 0 <= k < |ids| && ids[k] <= sorted[i];
      assert AboveSome(ids, r.value);
    }
    if r.None? {
      NoGapCase(ids, sorted);
    }
  }
}
