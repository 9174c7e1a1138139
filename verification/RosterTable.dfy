/** Sorting a table of students in place: the partition pass and the quicksort built on it
    (grades/src/sort.c). */
module RosterTable {

  /** A student, as far as sorting is concerned. Sorting never writes the four data fields, so they
      are constants here; it relinks the student in the section roster (next) and in the course
      roster (cnext). */
  class Student {
    const id: string
    const surname: string
    const name: string
    const composite: real
    var next: Student?
    var cnext: Student?

    constructor (id: string, surname: string, name: string, composite: real)
      ensures this.id == id && this.surname == surname && this.name == name && this.composite == composite
      ensures next == null && cnext == null
    {
      this.id, this.surname, this.name, this.composite := id, surname, name, composite;
      next, cnext := null, null;
    }
  }

  /** A comparison function: negative, zero or positive, as in C. */
  type Comparator = (Student, Student) -> int

  /** What the sort needs of its comparator, and only on the students being sorted: a total preorder. */
  ghost predicate Preorder(compare: Comparator, elems: set<Student>) {
    && (forall x | x in elems :: compare(x, x) == 0)
    && (forall x, y | x in elems && y in elems :: compare(x, y) <= 0 <==> compare(y, x) >= 0)
    && (forall x, y, z | x in elems && y in elems && z in elems
                         && compare(x, y) <= 0 && compare(y, z) <= 0 :: compare(x, z) <= 0)
  }

  ghost predicate Within(s: seq<Student>, elems: set<Student>) {
    forall x | x in s :: x in elems
  }

  ghost predicate Sorted(s: seq<Student>, compare: Comparator) {
    forall i, j | 0 <= i < j < |s| :: compare(s[i], s[j]) <= 0
  }

  ghost predicate AllAtMost(s: seq<Student>, p: Student, compare: Comparator) {
    forall x | x in s :: compare(x, p) <= 0
  }

  ghost predicate AllAtLeast(s: seq<Student>, p: Student, compare: Comparator) {
    forall x | x in s :: compare(x, p) >= 0
  }

  // ---------------------------------------------------------------------------------------------
  // Counting
  // ---------------------------------------------------------------------------------------------

  function Sign(c: int): int {
    if c < 0 then -1 else if c == 0 then 0 else 1
  }

  /** How many members of s compare with p as `sign` says: -1 below, 0 equal, 1 above. */
  function Count(s: seq<Student>, p: Student, compare: Comparator, sign: int): nat {
    if s == [] then 0
    else Count(s[..|s| - 1], p, compare, sign) + (if Sign(compare(s[|s| - 1], p)) == sign then 1 else 0)
  }

  lemma {:induction false} CountConcat(s: seq<Student>, t: seq<Student>, p: Student, compare: Comparator, sign: int)
    ensures Count(s + t, p, compare, sign) == Count(s, p, compare, sign) + Count(t, p, compare, sign)
  {
    if t == [] {
      assert s + t == s;
    } else {
      assert (s + t)[..|s + t| - 1] == s + t[..|t| - 1];
      CountConcat(s, t[..|t| - 1], p, compare, sign);
    }
  }

  lemma CountSingle(x: Student, p: Student, compare: Comparator)
    ensures forall sign :: Count([x], p, compare, sign) == if Sign(compare(x, p)) == sign then 1 else 0
  {
    assert [x][..0] == [];
  }

  lemma RemoveOne(s: seq<Student>, k: nat)
    requires k < |s|
    ensures multiset(s[..k] + s[k + 1..]) == multiset(s) - multiset{s[k]}
  {
    assert s == s[..k] + [s[k]] + s[k + 1..];
  }

  lemma CountRemoveOne(s: seq<Student>, k: nat, p: Student, compare: Comparator, sign: int)
    requires k < |s|
    ensures Count(s, p, compare, sign)
         == Count(s[..k] + s[k + 1..], p, compare, sign) + (if Sign(compare(s[k], p)) == sign then 1 else 0)
  {
    assert s == (s[..k] + [s[k]]) + s[k + 1..];
    CountConcat(s[..k] + [s[k]], s[k + 1..], p, compare, sign);
    CountConcat(s[..k], [s[k]], p, compare, sign);
    CountConcat(s[..k], s[k + 1..], p, compare, sign);
    CountSingle(s[k], p, compare);
  }

  lemma {:induction false} CountPermutation(s: seq<Student>, t: seq<Student>, p: Student, compare: Comparator,
                                            sign: int)
    requires multiset(s) == multiset(t)
    ensures Count(s, p, compare, sign) == Count(t, p, compare, sign)
    decreases |s|
  {
    if s == [] {
      assert |multiset(t)| == 0;
    } else {
      assert s[0] in multiset(t);
      var k :| 0 <= k < |t| && t[k] == s[0];
      hide *;
      RemoveOne(s, 0);
      RemoveOne(t, k);
      assert |s[..0] + s[1..]| < |s|;
      CountPermutation(s[..0] + s[1..], t[..k] + t[k + 1..], p, compare, sign);
      CountRemoveOne(s, 0, p, compare, sign);
      CountRemoveOne(t, k, p, compare, sign);
    }
  }

  lemma {:induction false} CountSigns(s: seq<Student>, p: Student, compare: Comparator)
    ensures Count(s, p, compare, -1) + Count(s, p, compare, 0) + Count(s, p, compare, 1) == |s|
  {
    if s != [] {
      CountSigns(s[..|s| - 1], p, compare);
    }
  }

  /** A count is positive exactly when some member has that sign. */
  lemma {:induction false} CountPositive(s: seq<Student>, p: Student, compare: Comparator, sign: int)
    ensures Count(s, p, compare, sign) > 0 <==> exists x :: x in s && Sign(compare(x, p)) == sign
  {
    if s != [] {
      var front := s[..|s| - 1];
      CountPositive(front, p, compare, sign);
      assert s == front + [s[|s| - 1]];
    }
  }

  /** The pivot is the only minimum of the segment: nothing lies below it and nothing else equals it. */
  ghost predicate UniqueMinimum(s: seq<Student>, p: Student, compare: Comparator) {
    Count(s, p, compare, -1) == 0 && Count(s, p, compare, 0) == 1
  }

  ghost function RotateLeft(s: seq<Student>): (r: seq<Student>)
    ensures |r| == |s|
  {
    if s == [] then [] else s[1..] + [s[0]]
  }

  // ---------------------------------------------------------------------------------------------
  // One partition pass
  // ---------------------------------------------------------------------------------------------

  /** What the pass keeps while it has dealt with [0, l) and [h, |s|) of a segment that started as `was`:
      the low part is at most the pivot, the high part at least the pivot, and equal members have gone
      alternately high and low, starting high. */
  ghost predicate Halfway(was: seq<Student>, s: seq<Student>, l: int, h: int, equalHigh: bool,
                          p: Student, compare: Comparator) {
    && 0 <= l <= h <= |s|
    && multiset(s) == multiset(was)
    && Count(s[..l], p, compare, 1) == 0
    && Count(s[h..], p, compare, -1) == 0
    && Count(s[h..], p, compare, 0) == Count(s[..l], p, compare, 0) + (if equalHigh then 0 else 1)
  }

  /** While the pivot is a unique minimum everything goes high, which shifts the members one place left. */
  ghost predicate Shifting(was: seq<Student>, s: seq<Student>, l: int, h: int) {
    && 0 == l <= h <= |s| == |was|
    && (forall k | 0 < k < h :: s[k] == was[k])
    && (forall k | h <= k < |s| - 1 :: s[k] == was[k + 1])
    && (h < |s| ==> s[|s| - 1] == was[0])
    && (0 < h < |s| ==> s[0] == was[h])
    && (0 < h == |s| ==> s[0] == was[0])
  }

  lemma HalfwayLow(was: seq<Student>, s: seq<Student>, l: int, h: int, equalHigh: bool, p: Student, compare: Comparator)
    requires Halfway(was, s, l, h, equalHigh, p, compare) && l < h
    requires compare(s[l], p) < 0 || (compare(s[l], p) == 0 && !equalHigh)
    ensures Halfway(was, s, l + 1, h, if compare(s[l], p) == 0 then true else equalHigh, p, compare)
  {
    assert s[..l + 1][..l] == s[..l];
  }

  lemma HalfwayHigh(was: seq<Student>, s: seq<Student>, t: seq<Student>, l: int, h: int, equalHigh: bool,
                    p: Student, compare: Comparator)
    requires Halfway(was, s, l, h, equalHigh, p, compare) && l < h
    requires compare(s[l], p) > 0 || (compare(s[l], p) == 0 && equalHigh)
    requires t == s[h - 1 := s[l]][l := s[h - 1]]
    ensures Halfway(was, t, l, h - 1, if compare(s[l], p) == 0 then false else equalHigh, p, compare)
  {
    assert t[h - 1] == s[l];
    assert t[h - 1..] == [s[l]] + s[h..];
    assert t[..l] == s[..l];
    forall sign { CountConcat([s[l]], s[h..], p, compare, sign); }
    CountSingle(s[l], p, compare);
    SwapPermutes(s, l, h - 1);
  }

  lemma SwapPermutes(s: seq<Student>, i: int, j: int)
    requires 0 <= i <= j < |s|
    ensures multiset(s[j := s[i]][i := s[j]]) == multiset(s)
  {
    var t := s[j := s[i]];
    assert multiset(t) == multiset(s) - multiset{s[j]} + multiset{s[i]};
    assert multiset(t[i := s[j]]) == multiset(t) - multiset{t[i]} + multiset{s[j]};
  }

  /** Where a finished pass splits: after everything below the pivot and half of what equals it. */
  lemma HalfwayDone(was: seq<Student>, s: seq<Student>, l: int, equalHigh: bool, p: Student, compare: Comparator)
    requires Halfway(was, s, l, l, equalHigh, p, compare)
    ensures l == Count(was, p, compare, -1) + Count(was, p, compare, 0) / 2
    ensures AllAtMost(s[..l], p, compare) && AllAtLeast(s[l..], p, compare)
  {
    assert s == s[..l] + s[l..];
    CountConcat(s[..l], s[l..], p, compare, -1);
    CountConcat(s[..l], s[l..], p, compare, 0);
    CountPermutation(s, was, p, compare, -1);
    CountPermutation(s, was, p, compare, 0);
    CountSigns(s[..l], p, compare);
    CountPositive(s[..l], p, compare, 1);
    CountPositive(s[l..], p, compare, -1);
  }

  /** A unique minimum is never sent low, nor is anything else in its pass. */
  lemma GoesHigh(was: seq<Student>, s: seq<Student>, l: int, h: int, equalHigh: bool, p: Student, compare: Comparator)
    requires Halfway(was, s, l, h, equalHigh, p, compare) && l < h
    requires UniqueMinimum(was, p, compare)
    ensures compare(s[l], p) > 0 || (compare(s[l], p) == 0 && equalHigh)
  {
    CountPermutation(s, was, p, compare, -1);
    CountPermutation(s, was, p, compare, 0);
    assert s[l] in s;
    CountPositive(s, p, compare, -1);
    if compare(s[l], p) == 0 {
      assert s == s[..h] + s[h..];
      CountConcat(s[..h], s[h..], p, compare, 0);
      assert s[l] in s[..h];
      CountPositive(s[..h], p, compare, 0);
    }
  }

  lemma ShiftStep(was: seq<Student>, s: seq<Student>, t: seq<Student>, h: int)
    requires Shifting(was, s, 0, h) && 0 < h
    requires t == s[h - 1 := s[0]][0 := s[h - 1]]
    ensures Shifting(was, t, 0, h - 1)
  {
  }

  lemma ShiftDone(was: seq<Student>, s: seq<Student>)
    requires Shifting(was, s, 0, 0)
    ensures s == RotateLeft(was)
  {
  }

  /** The pass is useless exactly when the pivot is the unique minimum; otherwise both parts are proper. */
  lemma SplitPoint(was: seq<Student>, p: Student, compare: Comparator)
    requires p in was && compare(p, p) == 0
    ensures var split := Count(was, p, compare, -1) + Count(was, p, compare, 0) / 2;
      0 <= split < |was| && (split == 0 <==> UniqueMinimum(was, p, compare))
  {
    CountSigns(was, p, compare);
    CountPositive(was, p, compare, 0);
  }

  /** The slot whose member is the pivot of [low, high). */
  function PivotSlot(low: int, high: int): (slot: int)
    ensures low < high ==> low <= slot < high
  {
    (low + high) / 2
  }

  ghost predicate OutsideKept(was: seq<Student>, s: seq<Student>, low: int, high: int)
    requires 0 <= low <= high <= |was|
  {
    |s| == |was| && s[..low] == was[..low] && s[high..] == was[high..]
  }

  lemma SwapInSegment(was: seq<Student>, s: seq<Student>, t: seq<Student>, low: int, high: int, i: int, j: int)
    requires 0 <= low <= i <= j < high <= |was|
    requires OutsideKept(was, s, low, high)
    requires t == s[j := s[i]][i := s[j]]
    ensures OutsideKept(was, t, low, high)
    ensures t[low..high] == s[low..high][j - low := s[i]][i - low := s[j]]
  {
    assert forall k | 0 <= k < low :: t[k] == s[..low][k];
    assert forall k | high <= k < |t| :: t[k] == s[high..][k - high];
  }

  /** Everything the loop of a pass over [low, high) keeps, from the table `whole` it started with. */
  ghost predicate Passing(whole: seq<Student>, t: seq<Student>, low: int, l: int, h: int, high: int, equalHigh: bool,
                          p: Student, compare: Comparator) {
    && 0 <= low <= high <= |whole|
    && OutsideKept(whole, t, low, high)
    && Halfway(whole[low..high], t[low..high], l - low, h - low, equalHigh, p, compare)
    && (UniqueMinimum(whole[low..high], p, compare) ==> Shifting(whole[low..high], t[low..high], l - low, h - low))
  }

  lemma PassLow(whole: seq<Student>, t: seq<Student>, low: int, l: int, h: int, high: int, equalHigh: bool,
                p: Student, compare: Comparator)
    requires Passing(whole, t, low, l, h, high, equalHigh, p, compare) && l < h
    requires compare(t[l], p) < 0 || (compare(t[l], p) == 0 && !equalHigh)
    ensures Passing(whole, t, low, l + 1, h, high, if compare(t[l], p) == 0 then true else equalHigh, p, compare)
  {
    assert t[low..high][l - low] == t[l];
    HalfwayLow(whole[low..high], t[low..high], l - low, h - low, equalHigh, p, compare);
    if UniqueMinimum(whole[low..high], p, compare) {
      GoesHigh(whole[low..high], t[low..high], l - low, h - low, equalHigh, p, compare);
    }
  }

  lemma PassHigh(whole: seq<Student>, t: seq<Student>, low: int, l: int, h: int, high: int, equalHigh: bool,
                 p: Student, compare: Comparator)
    requires Passing(whole, t, low, l, h, high, equalHigh, p, compare) && l < h
    requires compare(t[l], p) > 0 || (compare(t[l], p) == 0 && equalHigh)
    ensures Passing(whole, t[h - 1 := t[l]][l := t[h - 1]], low, l, h - 1, high,
                    if compare(t[l], p) == 0 then false else equalHigh, p, compare)
  {
    var was, s, u := whole[low..high], t[low..high], t[h - 1 := t[l]][l := t[h - 1]];
    var i, j := l - low, h - low;
    SwapInSegment(whole, t, u, low, high, l, h - 1);
    assert s[i] == t[l] && s[j - 1] == t[h - 1];
    var next := if compare(t[l], p) == 0 then false else equalHigh;
    HighInSegment(was, s, u[low..high], i, j, equalHigh, next, p, compare);
  }

  lemma HighInSegment(was: seq<Student>, s: seq<Student>, t: seq<Student>, l: int, h: int, equalHigh: bool,
                      next: bool, p: Student, compare: Comparator)
    requires Halfway(was, s, l, h, equalHigh, p, compare) && l < h
    requires UniqueMinimum(was, p, compare) ==> Shifting(was, s, l, h)
    requires compare(s[l], p) > 0 || (compare(s[l], p) == 0 && equalHigh)
    requires next == if compare(s[l], p) == 0 then false else equalHigh
    requires t == s[h - 1 := s[l]][l := s[h - 1]]
    ensures Halfway(was, t, l, h - 1, next, p, compare)
    ensures UniqueMinimum(was, p, compare) ==> Shifting(was, t, l, h - 1)
  {
    HalfwayHigh(was, s, t, l, h, equalHigh, p, compare);
    if UniqueMinimum(was, p, compare) {
      ShiftStep(was, s, t, h);
    }
  }

  /** What a finished pass has done to the segment, and where it splits it. */
  ghost predicate Partitioned(was: seq<Student>, s: seq<Student>, split: int, p: Student, compare: Comparator) {
    && 0 <= split < |was| == |s|
    && multiset(s) == multiset(was)
    && split == Count(was, p, compare, -1) + Count(was, p, compare, 0) / 2
    && AllAtMost(s[..split], p, compare) && AllAtLeast(s[split..], p, compare)
    && (split == 0 <==> UniqueMinimum(was, p, compare))
    && (split == 0 ==> s == RotateLeft(was))
  }

  /** The loop of a pass as a function: the finished table and the split point, from a table whose [low, l) and
      [h, high) are dealt with. */
  ghost function Pass(t: seq<Student>, l: int, h: int, equalHigh: bool, p: Student, compare: Comparator)
    : (r: (seq<Student>, int))
    requires 0 <= l <= h <= |t|
    decreases h - l
  {
    if l == h then (t, l) else
      var c := compare(t[l], p);
      var next := if c == 0 then !equalHigh else equalHigh;
      if c > 0 || (c == 0 && equalHigh)
      then Pass(t[h - 1 := t[l]][l := t[h - 1]], l, h - 1, next, p, compare)
      else Pass(t, l + 1, h, next, p, compare)
  }

  lemma PassDone(whole: seq<Student>, t: seq<Student>, low: int, l: int, high: int, equalHigh: bool,
                 p: Student, compare: Comparator)
    requires Passing(whole, t, low, l, l, high, equalHigh, p, compare)
    requires p in whole[low..high] && compare(p, p) == 0
    ensures OutsideKept(whole, t, low, high)
    ensures low <= l < high && Partitioned(whole[low..high], t[low..high], l - low, p, compare)
  {
    HalfwayDone(whole[low..high], t[low..high], l - low, equalHigh, p, compare);
    SplitPoint(whole[low..high], p, compare);
    if l == low {
      ShiftDone(whole[low..high], t[low..high]);
    }
    assert |multiset(t[low..high])| == high - low == |multiset(whole[low..high])|;
  }

  lemma {:induction false} PassPartitions(whole: seq<Student>, t: seq<Student>, low: int, l: int, h: int, high: int,
                                          equalHigh: bool, p: Student, compare: Comparator)
    requires 0 <= low <= l <= h <= high <= |t|
    requires Passing(whole, t, low, l, h, high, equalHigh, p, compare)
    requires p in whole[low..high] && compare(p, p) == 0
    ensures var (done, split) := Pass(t, l, h, equalHigh, p, compare);
      && OutsideKept(whole, done, low, high)
      && low <= split < high && Partitioned(whole[low..high], done[low..high], split - low, p, compare)
    decreases h - l
  {
    hide OutsideKept, Partitioned;
    if l == h {
      PassDone(whole, t, low, l, high, equalHigh, p, compare);
    } else {
      var c := compare(t[l], p);
      var next := if c == 0 then !equalHigh else equalHigh;
      if c > 0 || (c == 0 && equalHigh) {
        PassHigh(whole, t, low, l, h, high, equalHigh, p, compare);
        PassPartitions(whole, t[h - 1 := t[l]][l := t[h - 1]], low, l, h - 1, high, next, p, compare);
      } else {
        PassLow(whole, t, low, l, h, high, equalHigh, p, compare);
        PassPartitions(whole, t, low, l + 1, h, high, next, p, compare);
      }
    }
  }

  /** One pass over [low, high): exactly (members below the pivot) + (half the members equal to it) go low.
      The pass is useless, and only rotates the segment, exactly when the pivot is the unique minimum. */
  method Partition(stab: array<Student>, low: int, high: int, compare: Comparator) returns (l: int)
    requires 0 <= low < high <= stab.Length
    requires compare(stab[(low + high) / 2], stab[(low + high) / 2]) == 0
    modifies stab
    ensures low <= l < high
    ensures OutsideKept(old(stab[..]), stab[..], low, high)
    ensures Partitioned(old(stab[..][low..high]), stab[..][low..high], l - low,
                        old(stab[(low + high) / 2]), compare)
  {
    l := low;
    var h, alt := high, 1;
    var pivot := stab[PivotSlot(low, high)];
    ghost var whole := stab[..];
    assert pivot == whole[low..high][PivotSlot(low, high) - low];
    PassPartitions(whole, whole, low, low, high, high, true, pivot, compare);
    hide OutsideKept, Partitioned;
    while l < h
      invariant low <= l <= h <= high && (alt == 1 || alt == -1)
      invariant Pass(stab[..], l, h, alt == 1, pivot, compare) == Pass(whole, low, high, true, pivot, compare)
    {
      ghost var t := stab[..];
      var c := compare(stab[l], pivot);
      if c == 0 {
        c := alt;
        alt := -alt;
      }
      if c > 0 {
        var temp := stab[h - 1];
        stab[h - 1] := stab[l];
        stab[l] := temp;
        assert stab[..] == t[h - 1 := t[l]][l := t[h - 1]];
        h := h - 1;
      } else {
        l := l + 1;
      }
    }
  }

  // ---------------------------------------------------------------------------------------------
  // The quicksort
  // ---------------------------------------------------------------------------------------------

  lemma AllAtMostPermutation(s: seq<Student>, t: seq<Student>, p: Student, compare: Comparator)
    requires multiset(s) == multiset(t) && AllAtMost(s, p, compare)
    ensures AllAtMost(t, p, compare)
  {
    forall x | x in t ensures compare(x, p) <= 0 {
      assert x in multiset(t);
    }
  }

  lemma AllAtLeastPermutation(s: seq<Student>, t: seq<Student>, p: Student, compare: Comparator)
    requires multiset(s) == multiset(t) && AllAtLeast(s, p, compare)
    ensures AllAtLeast(t, p, compare)
  {
    forall x | x in t ensures compare(x, p) >= 0 {
      assert x in multiset(t);
    }
  }

  lemma SortedConcat(s: seq<Student>, t: seq<Student>, p: Student, compare: Comparator, elems: set<Student>)
    requires Sorted(s, compare) && Sorted(t, compare) && AllAtMost(s, p, compare) && AllAtLeast(t, p, compare)
    requires Preorder(compare, elems) && p in elems && Within(s, elems) && Within(t, elems)
    ensures Sorted(s + t, compare)
  {
    forall i, j | 0 <= i < j < |s + t| ensures compare((s + t)[i], (s + t)[j]) <= 0 {
      if i < |s| <= j {
        assert s[i] in s && t[j - |s|] in t;
      }
    }
  }

  lemma WithinPermutation(s: seq<Student>, t: seq<Student>, elems: set<Student>)
    requires multiset(s) == multiset(t) && Within(s, elems)
    ensures Within(t, elems)
  {
    forall x | x in t ensures x in elems {
      assert x in multiset(t);
    }
  }

  /** Whether the next pass over the segment would be useless. */
  ghost predicate Stuck(s: seq<Student>, pivotAt: int, compare: Comparator) {
    0 <= pivotAt < |s| && UniqueMinimum(s, s[pivotAt], compare)
  }

  ghost predicate StuckRange(s: seq<Student>, low: int, high: int, compare: Comparator)
    requires 0 <= low <= high <= |s|
  {
    Stuck(s[low..high], PivotSlot(low, high) - low, compare)
  }

  /** The rotation of a useless pass moves the unique minimum off the pivot slot. */
  lemma RotationUnsticks(s: seq<Student>, pivotAt: int, compare: Comparator, elems: set<Student>)
    requires 0 <= pivotAt < |s| && |s| >= 2
    requires Preorder(compare, elems) && Within(s, elems)
    requires Stuck(s, pivotAt, compare)
    ensures !Stuck(RotateLeft(s), pivotAt, compare)
  {
    var r, p := RotateLeft(s), s[pivotAt];
    var j := if pivotAt + 1 < |s| then pivotAt + 1 else 0;
    UniqueMinimumIsStrict(s, pivotAt, j, compare);
    assert r[pivotAt] == s[j] && p == r[if pivotAt > 0 then pivotAt - 1 else |s| - 1];
    CountPositive(r, s[j], compare, -1);
  }

  lemma UniqueMinimumIsStrict(s: seq<Student>, i: int, j: int, compare: Comparator)
    requires 0 <= i < |s| && 0 <= j < |s| && i != j
    requires compare(s[i], s[i]) == 0 && UniqueMinimum(s, s[i], compare)
    ensures compare(s[j], s[i]) > 0
  {
    var others := s[..i] + s[i + 1..];
    CountRemoveOne(s, i, s[i], compare, 0);
    CountPositive(others, s[i], compare, 0);
    CountPositive(s, s[i], compare, -1);
    assert s[j] == others[if j < i then j else j - 1];
  }

  lemma OtherSideKept(w: seq<Student>, v: seq<Student>, low: int, middle: int, high: int)
    requires 0 <= low <= middle <= high <= |w|
    requires OutsideKept(w, v, low, middle)
    ensures v[middle..high] == w[middle..high]
  {
    assert v[middle..high] == v[middle..][..high - middle] && w[middle..high] == w[middle..][..high - middle];
  }

  lemma OutsideKeptTwice(w: seq<Student>, v: seq<Student>, u: seq<Student>, low: int, high: int)
    requires 0 <= low <= high <= |w|
    requires OutsideKept(w, v, low, high) && OutsideKept(v, u, low, high)
    ensures OutsideKept(w, u, low, high)
  {
  }

  lemma SlicesCompose(w: seq<Student>, v: seq<Student>, u: seq<Student>, low: int, middle: int, high: int)
    requires 0 <= low <= middle <= high <= |w|
    requires OutsideKept(w, v, low, middle) && OutsideKept(v, u, middle, high)
    ensures OutsideKept(w, u, low, high)
    ensures v[middle..high] == w[middle..high]
    ensures u[low..high] == v[low..middle] + u[middle..high]
    ensures w[low..high] == w[low..middle] + w[middle..high]
  {
    forall k | middle <= k < high ensures v[k] == w[k] {
      assert v[k] == v[middle..][k - middle] && w[k] == w[middle..][k - middle];
    }
    forall k | low <= k < middle ensures u[k] == v[k] {
      assert u[k] == u[..middle][k] && v[k] == v[..middle][k];
    }
    assert u[..low] == u[..middle][..low] && v[..low] == v[..middle][..low];
    assert v[high..] == v[middle..][high - middle..] && w[high..] == w[middle..][high - middle..];
  }

  /** Sorting both sides of a partitioned segment sorts the segment. */
  lemma SortedHalves(p: seq<Student>, s: seq<Student>, t: seq<Student>, split: int, pivot: Student,
                     compare: Comparator, elems: set<Student>)
    requires 0 <= split <= |p| && Preorder(compare, elems) && pivot in elems && Within(p, elems)
    requires AllAtMost(p[..split], pivot, compare) && AllAtLeast(p[split..], pivot, compare)
    requires multiset(s) == multiset(p[..split]) && multiset(t) == multiset(p[split..])
    requires Sorted(s, compare) && Sorted(t, compare)
    ensures Sorted(s + t, compare) && multiset(s + t) == multiset(p)
  {
    assert p == p[..split] + p[split..];
    WithinPermutation(p[..split], s, elems);
    WithinPermutation(p[split..], t, elems);
    AllAtMostPermutation(p[..split], s, pivot, compare);
    AllAtLeastPermutation(p[split..], t, pivot, compare);
    SortedConcat(s, t, pivot, compare, elems);
  }

  ghost predicate SortedFrom(was: seq<Student>, s: seq<Student>, compare: Comparator) {
    Sorted(s, compare) && multiset(s) == multiset(was)
  }

  lemma SingleSorted(was: seq<Student>, s: seq<Student>, split: int, pivot: Student, compare: Comparator)
    requires |was| == 1 && Partitioned(was, s, split, pivot, compare)
    ensures SortedFrom(was, s, compare)
  {
  }

  /** A table before a pass over [low, high), after it, and after sorting each side in turn. */
  lemma TwoSidesSorted(start: seq<Student>, parted: seq<Student>, halfway: seq<Student>, done: seq<Student>,
                       low: int, middle: int, high: int, pivot: Student, compare: Comparator, elems: set<Student>)
    requires 0 <= low <= middle <= high <= |start|
    requires pivot in elems && Preorder(compare, elems) && Within(start[low..high], elems)
    requires OutsideKept(start, parted, low, high)
    requires Partitioned(start[low..high], parted[low..high], middle - low, pivot, compare)
    requires OutsideKept(parted, halfway, low, middle)
    requires SortedFrom(parted[low..middle], halfway[low..middle], compare)
    requires OutsideKept(halfway, done, middle, high)
    requires SortedFrom(halfway[middle..high], done[middle..high], compare)
    ensures OutsideKept(start, done, low, high)
    ensures SortedFrom(start[low..high], done[low..high], compare)
  {
    SlicesCompose(parted, halfway, done, low, middle, high);
    OutsideKeptTwice(start, parted, done, low, high);
    assert parted[low..middle] == parted[low..high][..middle - low];
    assert parted[middle..high] == parted[low..high][middle - low..];
    WithinPermutation(start[low..high], parted[low..high], elems);
    SortedHalves(parted[low..high], halfway[low..middle], done[middle..high], middle - low, pivot, compare, elems);
  }

  /** What a pass leaves for the two recursive calls: members to compare, and no second useless pass. */
  lemma PassLeaves(start: seq<Student>, parted: seq<Student>, low: int, middle: int, high: int, pivotAt: int,
                   pivot: Student, compare: Comparator, elems: set<Student>)
    requires 0 <= low <= middle < high <= |start| == |parted| && high - low >= 2
    requires pivotAt == PivotSlot(low, high) - low
    requires Preorder(compare, elems) && Within(start[low..high], elems)
    requires pivot == start[low..high][pivotAt]
    requires Partitioned(start[low..high], parted[low..high], middle - low, pivot, compare)
    ensures Within(parted[low..middle], elems) && Within(parted[middle..high], elems)
    ensures middle == low <==> StuckRange(start, low, high, compare)
    ensures middle == low ==> !StuckRange(parted, low, high, compare)
  {
    WithinPermutation(start[low..high], parted[low..high], elems);
    assert parted[low..middle] == parted[low..high][..middle - low];
    assert parted[middle..high] == parted[low..high][middle - low..];
    if middle == low {
      RotationUnsticks(start[low..high], pivotAt, compare, elems);
    }
  }

  /** Sorts [low, high) in place. The measure is the range and, on a tie, whether the pivot slot holds the
      unique minimum. `calls` counts the partition passes. */
  method SortTable(stab: array<Student>, low: int, high: int, compare: Comparator, ghost elems: set<Student>)
    returns (ghost calls: nat)
    requires 0 <= low <= high <= stab.Length
    requires Preorder(compare, elems) && Within(stab[..][low..high], elems)
    modifies stab
    ensures OutsideKept(old(stab[..]), stab[..], low, high)
    ensures SortedFrom(old(stab[..][low..high]), stab[..][low..high], compare)
    ensures calls <= if low == high then 0 else 3 * (high - low) - 2
    ensures low + 1 < high && !StuckRange(old(stab[..]), low, high, compare)
            ==> calls <= 3 * (high - low) - 3
    decreases high - low, if StuckRange(stab[..], low, high, compare) then 1 else 0
  {
    calls := 0;
    if low == high {
      return;
    }
    ghost var start := stab[..];
    ghost var pivotAt := PivotSlot(low, high) - low;
    ghost var pivot := start[low..high][pivotAt];
    assert pivot == stab[PivotSlot(low, high)] && pivot in start[low..high] && pivot in elems;
    assert compare(pivot, pivot) == 0 && Within(start[low..high], elems);
    hide *;
    var middle := Partition(stab, low, high, compare);
    ghost var parted := stab[..];
    calls := 1;
    if low + 1 == high {
      SingleSorted(start[low..high], parted[low..high], middle - low, pivot, compare);
      return;
    }
    PassLeaves(start, parted, low, middle, high, pivotAt, pivot, compare, elems);
    ghost var callsLow := SortTable(stab, low, middle, compare, elems);
    ghost var halfway := stab[..];
    OtherSideKept(parted, halfway, low, middle, high);
    ghost var callsHigh := SortTable(stab, middle, high, compare, elems);
    TwoSidesSorted(start, parted, halfway, stab[..], low, middle, high, pivot, compare, elems);
    calls := 1 + callsLow + callsHigh;
  }
}
