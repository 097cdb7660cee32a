/**
 * TaskSorter.sortLevel and TaskSorter.sortBlocksRecursively: a stable sort
 * of every sibling group with a three-way comparator that only separates an
 * incomplete task from a completed one.
 *
 * The comparator is not a consistent ordering (a non-task compares equal to
 * both kinds of task, which compare unequal to each other), so the order an
 * engine's `Array.prototype.sort` produces for a mixed group is not fixed by
 * ECMAScript.  The model fixes one stable algorithm: insertion sort, which
 * moves each element left past the elements that compare greater than it.
 */
module Sorting {
  import opened Blocks
  import opened Seqs

  /** An incomplete task. */
  predicate IsOpen(b: Block)
  {
    b.isTask && !b.isCompleted
  }

  /** A completed task. */
  predicate IsDone(b: Block)
  {
    b.isTask && b.isCompleted
  }

  /** The comparator passed to `blocks.sort` in TaskSorter.sortLevel. */
  function Compare(a: Block, b: Block): (r: int)
    ensures r > 0 <==> IsDone(a) && IsOpen(b)
    ensures r < 0 <==> IsOpen(a) && IsDone(b)
  {
    if !a.isTask || !b.isTask then 0
    else if a.isCompleted == b.isCompleted then 0
    else if a.isCompleted then 1
    else if b.isCompleted then -1
    else 0
  }

  /** The comparator is antisymmetric, as `Array.prototype.sort` requires of a consistent comparator. */
  lemma CompareAntisymmetric(a: Block, b: Block)
    ensures Compare(a, b) == -Compare(b, a)
  {
  }

  // ---------------------------------------------------------------------------
  // Stable insertion sort of one sibling group
  // ---------------------------------------------------------------------------

  /** Inserting `x` after `sorted`: it moves left past every trailing element that compares greater than it. */
  function InsertSorted(sorted: seq<Block>, x: Block): seq<Block>
  {
    if sorted == [] || Compare(sorted[|sorted| - 1], x) <= 0 then sorted + [x]
    else InsertSorted(sorted[..|sorted| - 1], x) + [sorted[|sorted| - 1]]
  }

  /** The sibling group after TaskSorter.sortLevel: each element in turn inserted after the sorted elements before it. */
  function InsertionSort(s: seq<Block>): seq<Block>
  {
    if s == [] then [] else InsertSorted(InsertionSort(s[..|s| - 1]), s[|s| - 1])
  }

  /** Moving past an element that compares greater puts that element after the insertion. */
  lemma InsertSortedStep(sorted: seq<Block>, j: nat, x: Block)
    requires 0 < j <= |sorted|
    requires Compare(sorted[j - 1], x) > 0
    ensures InsertSorted(sorted[..j], x) + sorted[j..] == InsertSorted(sorted[..j - 1], x) + sorted[j - 1..]
  {
    assert sorted[..j][..j - 1] == sorted[..j - 1];
    assert sorted[j - 1..] == [sorted[j - 1]] + sorted[j..];
  }

  /** Shifting the element at `j - 1` one place right keeps the array a copy of `sorted` with a gap, one place further left. */
  lemma ShiftRight(before: seq<Block>, sorted: seq<Block>, j: nat, i: nat)
    requires 0 < j <= i < |before| && |sorted| == i
    requires before[..j] == sorted[..j] && before[j + 1..i + 1] == sorted[j..]
    ensures before[j := before[j - 1]][..j - 1] == sorted[..j - 1]
    ensures before[j := before[j - 1]][j..i + 1] == sorted[j - 1..]
    ensures before[j := before[j - 1]][i + 1..] == before[i + 1..]
  {
    var after := before[j := before[j - 1]];
    assert after[j..i + 1] == [before[j - 1]] + before[j + 1..i + 1];
    assert before[j - 1] == sorted[j - 1];
    assert sorted[j - 1..] == [sorted[j - 1]] + sorted[j..];
  }

  /** Filling the gap at `j` with `x` completes the insertion. */
  lemma FillGap(before: seq<Block>, sorted: seq<Block>, x: Block, j: nat, i: nat)
    requires j <= i < |before| && |sorted| == i
    requires before[..j] == sorted[..j] && before[j + 1..i + 1] == sorted[j..]
    ensures before[j := x][..i + 1] == sorted[..j] + [x] + sorted[j..]
    ensures before[j := x][i + 1..] == before[i + 1..]
  {
    var after := before[j := x];
    assert after[..i + 1] == before[..j] + [x] + before[j + 1..i + 1];
  }

  /**
   * One step of the sort: the element at `i` moves left past the elements
   * before it that compare greater than it, which shift one place right.
   */
  method InsertAt(blocks: array<Block>, i: nat)
    requires i < blocks.Length
    modifies blocks
    ensures blocks[..i + 1] == InsertSorted(old(blocks[..i]), old(blocks[i]))
    ensures blocks[i + 1..] == old(blocks[i + 1..])
  {
    ghost var sorted := blocks[..i];
    ghost var rest := blocks[i + 1..];
    var x := blocks[i];
    var j := i;
    assert sorted[..j] == sorted && sorted[j..] == [];
    while j > 0 && Compare(blocks[j - 1], x) > 0
      invariant 0 <= j <= i
      invariant blocks[..j] == sorted[..j]
      invariant blocks[j + 1..i + 1] == sorted[j..]
      invariant blocks[i + 1..] == rest
      invariant InsertSorted(sorted, x) == InsertSorted(sorted[..j], x) + sorted[j..]
    {
      ghost var before := blocks[..];
      assert before[j - 1] == sorted[j - 1];
      InsertSortedStep(sorted, j, x);
      ShiftRight(before, sorted, j, i);
      blocks[j] := blocks[j - 1];
      assert blocks[..] == before[j := before[j - 1]];
      j := j - 1;
    }
    ghost var before := blocks[..];
    FillGap(before, sorted, x, j, i);
    blocks[j] := x;
    assert blocks[..] == before[j := x];
  }

  /**
   * TaskSorter.sortLevel: sorts the sibling array in place, inserting each
   * element in turn among the sorted elements before it.
   */
  method SortLevel(blocks: array<Block>)
    modifies blocks
    ensures blocks[..] == InsertionSort(old(blocks[..]))
  {
    ghost var input := blocks[..];
    for i := 0 to blocks.Length
      invariant blocks[..i] == InsertionSort(input[..i])
      invariant blocks[i..] == input[i..]
    {
      SuffixStep(blocks[..], input, i);
      InsertAt(blocks, i);
      PrefixStep(input, i);
    }
    assert input[..blocks.Length] == input;
  }

  /** Sorting a group only rearranges it. */
  lemma {:induction false} InsertSortedPermutes(sorted: seq<Block>, x: Block)
    ensures multiset(InsertSorted(sorted, x)) == multiset(sorted) + multiset{x}
  {
    if !(sorted == [] || Compare(sorted[|sorted| - 1], x) <= 0) {
      var init := sorted[..|sorted| - 1];
      InsertSortedPermutes(init, x);
      assert sorted == init + [sorted[|sorted| - 1]];
    }
  }

  /** Sorting a group keeps its length. */
  lemma {:induction false} SortLevelLength(s: seq<Block>)
    ensures |InsertionSort(s)| == |s|
  {
    if s != [] {
      SortLevelPermutes(s);
      assert |multiset(InsertionSort(s))| == |multiset(s)|;
    }
  }

  /** TaskSorter.sortLevel leaves each sibling group a permutation of itself. */
  lemma {:induction false} SortLevelPermutes(s: seq<Block>)
    ensures multiset(InsertionSort(s)) == multiset(s)
  {
    if s != [] {
      var init := s[..|s| - 1];
      SortLevelPermutes(init);
      InsertSortedPermutes(InsertionSort(init), s[|s| - 1]);
      assert s == init + [s[|s| - 1]];
    }
  }

  // ---------------------------------------------------------------------------
  // The independent description of the result
  // ---------------------------------------------------------------------------

  /** The incomplete tasks of a group, in order. */
  function Opens(s: seq<Block>): seq<Block>
  {
    if s == [] then [] else (if IsOpen(s[0]) then [s[0]] else []) + Opens(s[1..])
  }

  /** The completed tasks of a group, in order. */
  function Dones(s: seq<Block>): seq<Block>
  {
    if s == [] then [] else (if IsDone(s[0]) then [s[0]] else []) + Dones(s[1..])
  }

  /** Opens keeps exactly the incomplete tasks, in their order. */
  lemma {:induction false} OpensAreOpen(s: seq<Block>)
    ensures forall k :: 0 <= k < |Opens(s)| ==> IsOpen(Opens(s)[k])
    ensures |Opens(s)| <= |s|
  {
    if s != [] {
      OpensAreOpen(s[1..]);
    }
  }

  /** Dones keeps exactly the completed tasks, in their order. */
  lemma {:induction false} DonesAreDone(s: seq<Block>)
    ensures forall k :: 0 <= k < |Dones(s)| ==> IsDone(Dones(s)[k])
    ensures |Dones(s)| <= |s|
  {
    if s != [] {
      DonesAreDone(s[1..]);
    }
  }

  lemma {:induction false} OpensAppend(a: seq<Block>, b: seq<Block>)
    ensures Opens(a + b) == Opens(a) + Opens(b)
  {
    if a == [] {
      assert a + b == b;
    } else {
      var head := if IsOpen(a[0]) then [a[0]] else [];
      assert Opens(a + b) == head + Opens(a[1..] + b) by {
        assert (a + b)[0] == a[0] && (a + b)[1..] == a[1..] + b;
      }
      OpensAppend(a[1..], b);
      Assoc(head, Opens(a[1..]), Opens(b));
    }
  }

  lemma {:induction false} DonesAppend(a: seq<Block>, b: seq<Block>)
    ensures Dones(a + b) == Dones(a) + Dones(b)
  {
    if a == [] {
      assert a + b == b;
    } else {
      var head := if IsDone(a[0]) then [a[0]] else [];
      assert Dones(a + b) == head + Dones(a[1..] + b) by {
        assert (a + b)[0] == a[0] && (a + b)[1..] == a[1..] + b;
      }
      DonesAppend(a[1..], b);
      Assoc(head, Dones(a[1..]), Dones(b));
    }
  }

  /** Every block of the group is a task. */
  predicate AllTasks(s: seq<Block>)
  {
    forall k :: 0 <= k < |s| ==> s[k].isTask
  }

  /** The end of the run of consecutive tasks that starts at `i`. */
  function RunEnd(s: seq<Block>, i: nat): (j: nat)
    requires i <= |s|
    ensures i <= j <= |s|
    ensures i < |s| && s[i].isTask ==> i < j
    decreases |s| - i
  {
    if i < |s| && s[i].isTask then RunEnd(s, i + 1) else i
  }

  /** RunEnd ends the longest run of tasks starting at `i`. */
  lemma {:induction false} RunEndIsMaximal(s: seq<Block>, i: nat)
    requires i <= |s|
    ensures forall k :: i <= k < RunEnd(s, i) ==> s[k].isTask
    ensures RunEnd(s, i) == |s| || !s[RunEnd(s, i)].isTask
    decreases |s| - i
  {
    if i < |s| && s[i].isTask {
      RunEndIsMaximal(s, i + 1);
    }
  }

  /** A maximal run of tasks is determined by where it starts. */
  lemma {:induction false} RunEndUnique(s: seq<Block>, i: nat, j: nat)
    requires i <= j <= |s|
    requires forall k :: i <= k < j ==> s[k].isTask
    requires j == |s| || !s[j].isTask
    ensures RunEnd(s, i) == j
    decreases j - i
  {
    if i < j {
      RunEndUnique(s, i + 1, j);
    }
  }

  /**
   * What sorting a sibling group means: every non-task block keeps its
   * place, and each maximal run of consecutive tasks between them is
   * rearranged into its incomplete tasks followed by its completed tasks,
   * each kind in its original order.
   */
  function Segmented(s: seq<Block>): seq<Block>
    decreases |s|
  {
    if s == [] then []
    else if !s[0].isTask then [s[0]] + Segmented(s[1..])
    else
      var k := RunEnd(s, 0);
      Opens(s[..k]) + Dones(s[..k]) + Segmented(s[k..])
  }

  /** Insertion stops at the first element from the right that does not compare greater. */
  lemma {:induction false} InsertSortedAfter(a: seq<Block>, q: seq<Block>, x: Block)
    requires a != [] && Compare(a[|a| - 1], x) <= 0
    ensures InsertSorted(a + q, x) == a + InsertSorted(q, x)
    decreases |q|
  {
    var aq := a + q;
    if q == [] {
      assert aq == a;
    } else if Compare(q[|q| - 1], x) > 0 {
      var init := q[..|q| - 1];
      DropLast(a, q);
      InsertSortedAfter(a, init, x);
      Assoc(a, InsertSorted(init, x), [q[|q| - 1]]);
    }
  }

  /** An incomplete task moves left past a block of completed tasks and stops there. */
  lemma {:induction false} InsertPastDones(opens: seq<Block>, dones: seq<Block>, x: Block)
    requires IsOpen(x)
    requires forall k :: 0 <= k < |dones| ==> IsDone(dones[k])
    requires opens == [] || Compare(opens[|opens| - 1], x) <= 0
    ensures InsertSorted(opens + dones, x) == opens + [x] + dones
    decreases |dones|
  {
    var od := opens + dones;
    if dones == [] {
      assert od == opens;
    } else {
      var init, last := dones[..|dones| - 1], dones[|dones| - 1];
      DropLast(opens, dones);
      InsertPastDones(opens, init, x);
      Assoc(opens + [x], init, [last]);
      SnocSplit(dones);
    }
  }

  /** A group made only of tasks is segmented into its incomplete tasks, then its completed tasks. */
  lemma SegmentedAllTasks(p: seq<Block>)
    requires p != [] && AllTasks(p)
    ensures Segmented(p) == Opens(p) + Dones(p)
  {
    RunEndUnique(p, 0, |p|);
    assert p[..|p|] == p && p[|p|..] == [];
  }

  /** A group with at least one task has at least one incomplete or completed task. */
  lemma TasksNotEmpty(p: seq<Block>)
    requires p != [] && p[0].isTask
    ensures Opens(p) + Dones(p) != []
  {
    if IsOpen(p[0]) {
      assert Opens(p)[0] == p[0];
    } else {
      assert Dones(p)[0] == p[0];
    }
  }

  /** A single task is kept by Opens or by Dones according to its status. */
  lemma SingleTask(x: Block)
    requires x.isTask
    ensures Opens([x]) == (if IsOpen(x) then [x] else [])
    ensures Dones([x]) == (if IsDone(x) then [x] else [])
  {
    assert [x][1..] == [];
  }

  /** An element that does not compare less than the last one stays at the end. */
  lemma InsertSortedAtEnd(s: seq<Block>, x: Block)
    requires s != [] && Compare(s[|s| - 1], x) <= 0
    ensures InsertSorted(s, x) == s + [x]
  {
  }

  /** A group that starts with a non-task block keeps it in front. */
  lemma SegmentedPlainHead(q: seq<Block>)
    requires q != [] && !q[0].isTask
    ensures Segmented(q) == [q[0]] + Segmented(q[1..])
  {
  }

  /** A group that starts with a run of tasks has that run segmented in front. */
  lemma SegmentedRunHead(p: seq<Block>, q: seq<Block>, k: nat)
    requires k <= |p| && k <= |q| && p[..k] == q[..k] && p != [] && p[0].isTask
    requires k == RunEnd(p, 0) && k == RunEnd(q, 0)
    ensures Segmented(q) == Opens(p[..k]) + Dones(p[..k]) + Segmented(q[k..])
  {
    assert q[0] == p[..k][0];
  }

  /** Inserting after a leading non-task block. */
  lemma InsertSegmentedAfterPlain(p: seq<Block>, x: Block)
    requires p != [] && !p[0].isTask
    requires InsertSorted(Segmented(p[1..]), x) == Segmented(p[1..] + [x])
    ensures InsertSorted(Segmented(p), x) == Segmented(p + [x])
  {
    var px := p + [x];
    assert px[0] == p[0] && px[1..] == p[1..] + [x];
    SegmentedPlainHead(p);
    SegmentedPlainHead(px);
    InsertSortedAfter([p[0]], Segmented(p[1..]), x);
  }

  /** A leading run of tasks that a non-task block ends is segmented in front of that block. */
  lemma SegmentedRunThenPlain(p: seq<Block>, k: nat)
    requires p != [] && p[0].isTask && k == RunEnd(p, 0) && k < |p|
    ensures !p[k].isTask
    ensures Segmented(p) == (Opens(p[..k]) + Dones(p[..k]) + [p[k]]) + Segmented(p[k + 1..])
  {
    assert !p[k].isTask by {
      RunEndIsMaximal(p, 0);
    }
    var run := Opens(p[..k]) + Dones(p[..k]);
    assert Segmented(p) == run + Segmented(p[k..]) by {
      SegmentedRunHead(p, p, k);
    }
    assert Segmented(p[k..]) == [p[k]] + Segmented(p[k + 1..]) by {
      assert p[k..][0] == p[k] && p[k..][1..] == p[k + 1..];
      SegmentedPlainHead(p[k..]);
    }
  }

  /** Appending after a non-task block leaves the leading run of tasks as it was. */
  lemma SegmentedAppendAfterRun(p: seq<Block>, x: Block, k: nat)
    requires p != [] && p[0].isTask && k == RunEnd(p, 0) && k < |p|
    ensures Segmented(p + [x]) == Opens(p[..k]) + Dones(p[..k]) + Segmented(p[k..] + [x])
  {
    RunEndAppend(p, [x], k);
    AppendSlices(p, [x], k);
    SegmentedRunHead(p, p + [x], k);
  }

  /** A run of tasks that a non-task block ends is not lengthened by appending. */
  lemma RunEndAppend(p: seq<Block>, y: seq<Block>, k: nat)
    requires k == RunEnd(p, 0) && k < |p|
    ensures RunEnd(p + y, 0) == k
  {
    var q := p + y;
    RunEndIsMaximal(p, 0);
    forall j | 0 <= j < k ensures q[j].isTask {
      assert q[j] == p[j];
    }
    assert q[k] == p[k];
    RunEndUnique(q, 0, k);
  }

  /** Insertion never moves an element left past a non-task block. */
  lemma InsertPastPlain(front: seq<Block>, head: Block, rest: seq<Block>, x: Block)
    requires !head.isTask
    ensures InsertSorted(front + [head] + rest, x) == front + ([head] + InsertSorted(rest, x))
  {
    assert (front + [head])[|front|] == head;
    InsertSortedAfter(front + [head], rest, x);
  }

  /** An element inserted after a non-task block lands after that block. */
  lemma InsertAfterPlain(p: seq<Block>, x: Block, k: nat)
    requires k < |p| && !p[k].isTask
    requires InsertSorted(Segmented(p[k..]), x) == Segmented(p[k..] + [x])
    ensures Segmented(p[k..] + [x]) == [p[k]] + InsertSorted(Segmented(p[k + 1..]), x)
  {
    assert p[k..][0] == p[k] && p[k..][1..] == p[k + 1..];
    SegmentedPlainHead(p[k..]);
    InsertSortedAfter([p[k]], Segmented(p[k + 1..]), x);
  }

  /** Inserting after a leading run of tasks that a non-task block ends. */
  lemma InsertSegmentedAfterRun(p: seq<Block>, x: Block, k: nat)
    requires p != [] && p[0].isTask && k == RunEnd(p, 0) && k < |p|
    requires InsertSorted(Segmented(p[k..]), x) == Segmented(p[k..] + [x])
    ensures InsertSorted(Segmented(p), x) == Segmented(p + [x])
  {
    var tasks := Opens(p[..k]) + Dones(p[..k]);
    var head, rest := p[k], Segmented(p[k + 1..]);
    SegmentedRunThenPlain(p, k);
    SegmentedAppendAfterRun(p, x, k);
    InsertAfterPlain(p, x, k);
    InsertPastPlain(tasks, head, rest, x);
  }

  /** Inserting a non-task block after a group made only of tasks. */
  lemma InsertPlainAfterTasks(p: seq<Block>, x: Block)
    requires p != [] && AllTasks(p) && !x.isTask
    ensures InsertSorted(Segmented(p), x) == Segmented(p + [x])
  {
    var px := p + [x];
    SegmentedAllTasks(p);
    TasksNotEmpty(p);
    InsertSortedAtEnd(Opens(p) + Dones(p), x);
    assert Segmented(px) == Opens(p) + Dones(p) + [x] by {
      RunEndUnique(p, 0, |p|);
      RunEndUnique(px, 0, |p|);
      assert px[..|p|] == p && px[|p|..] == [x];
      SegmentedRunHead(p, px, |p|);
      assert [x][1..] == [];
      SegmentedPlainHead([x]);
    }
  }

  /** Appending a task to a group made only of tasks. */
  lemma SegmentedTasksAppend(p: seq<Block>, x: Block)
    requires p != [] && AllTasks(p) && x.isTask
    ensures Segmented(p + [x]) == (Opens(p) + Opens([x])) + (Dones(p) + Dones([x]))
  {
    var px := p + [x];
    assert AllTasks(px) by {
      forall k | 0 <= k < |px| ensures px[k].isTask {
        if k < |p| {
          assert px[k] == p[k];
        }
      }
    }
    SegmentedAllTasks(px);
    OpensAppend(p, [x]);
    DonesAppend(p, [x]);
  }

  /** Inserting an incomplete task after a group made only of tasks. */
  lemma InsertOpenAfterTasks(p: seq<Block>, x: Block)
    requires p != [] && AllTasks(p) && IsOpen(x)
    ensures InsertSorted(Segmented(p), x) == Segmented(p + [x])
  {
    var opens, dones := Opens(p), Dones(p);
    SegmentedAllTasks(p);
    assert Segmented(p + [x]) == opens + [x] + dones by {
      SegmentedTasksAppend(p, x);
      SingleTask(x);
      assert dones + [] == dones;
    }
    OpensAreOpen(p);
    DonesAreDone(p);
    InsertPastDones(opens, dones, x);
  }

  lemma TasksThenDone(opens: seq<Block>, dones: seq<Block>, x: Block)
    ensures (opens + []) + (dones + [x]) == opens + dones + [x]
  {
  }

  /** Inserting a completed task after a group made only of tasks. */
  lemma InsertDoneAfterTasks(p: seq<Block>, x: Block)
    requires p != [] && AllTasks(p) && IsDone(x)
    ensures InsertSorted(Segmented(p), x) == Segmented(p + [x])
  {
    var od := Opens(p) + Dones(p);
    SegmentedAllTasks(p);
    assert Segmented(p + [x]) == od + [x] by {
      SegmentedTasksAppend(p, x);
      SingleTask(x);
      TasksThenDone(Opens(p), Dones(p), x);
    }
    TasksNotEmpty(p);
    InsertSortedAtEnd(od, x);
  }

  /** Inserting one more element into a segmented group is segmenting the longer group. */
  lemma {:induction false} InsertSegmented(p: seq<Block>, x: Block)
    ensures InsertSorted(Segmented(p), x) == Segmented(p + [x])
    decreases |p|
  {
    if p == [] {
      assert p + [x] == [x] && [x][1..] == [];
      if x.isTask {
        RunEndUnique([x], 0, 1);
        assert [x][..1] == [x];
        SingleTask(x);
      }
    } else if !p[0].isTask {
      assert (p + [x])[1..] == p[1..] + [x];
      InsertSegmented(p[1..], x);
      InsertSegmentedAfterPlain(p, x);
    } else {
      var k := RunEnd(p, 0);
      if k < |p| {
        InsertSegmented(p[k..], x);
        InsertSegmentedAfterRun(p, x, k);
      } else {
        RunEndIsMaximal(p, 0);
        if IsOpen(x) {
          InsertOpenAfterTasks(p, x);
        } else if IsDone(x) {
          InsertDoneAfterTasks(p, x);
        } else {
          InsertPlainAfterTasks(p, x);
        }
      }
    }
  }

  /** The insertion sort of TaskSorter.sortLevel produces exactly the segmented group. */
  lemma {:induction false} SortLevelIsSegmented(s: seq<Block>)
    ensures InsertionSort(s) == Segmented(s)
  {
    if s != [] {
      var init := s[..|s| - 1];
      SortLevelIsSegmented(init);
      InsertSegmented(init, s[|s| - 1]);
      assert init + [s[|s| - 1]] == s;
    }
  }

  // ---------------------------------------------------------------------------
  // What the sorted group looks like
  // ---------------------------------------------------------------------------

  /** No completed task stands directly before an incomplete task. */
  predicate InOrder(s: seq<Block>)
  {
    forall i :: 0 < i < |s| ==> !(IsDone(s[i - 1]) && IsOpen(s[i]))
  }

  /** Inserting into a group in order keeps it in order. */
  lemma {:induction false} InsertSortedInOrder(sorted: seq<Block>, x: Block)
    requires InOrder(sorted)
    ensures InOrder(InsertSorted(sorted, x))
  {
    var n := |sorted|;
    if !(sorted == [] || Compare(sorted[n - 1], x) <= 0) {
      var init, last := sorted[..n - 1], sorted[n - 1];
      assert InOrder(init) by {
        forall i | 0 < i < |init| ensures !(IsDone(init[i - 1]) && IsOpen(init[i])) {
          assert init[i - 1] == sorted[i - 1] && init[i] == sorted[i];
        }
      }
      InsertSortedInOrder(init, x);
      var r := InsertSorted(init, x);
      assert IsDone(last);
      forall i | 0 < i < |r + [last]| ensures !(IsDone((r + [last])[i - 1]) && IsOpen((r + [last])[i])) {
        if i < |r| {
          assert (r + [last])[i - 1] == r[i - 1] && (r + [last])[i] == r[i];
        }
      }
    }
  }

  /** TaskSorter.sortLevel leaves no completed task directly before an incomplete one. */
  lemma {:induction false} SortLevelInOrder(s: seq<Block>)
    ensures InOrder(InsertionSort(s))
  {
    if s != [] {
      SortLevelInOrder(s[..|s| - 1]);
      InsertSortedInOrder(InsertionSort(s[..|s| - 1]), s[|s| - 1]);
    }
  }

  /** A group already in order is left exactly as it is. */
  lemma {:induction false} SortLevelKeepsInOrder(s: seq<Block>)
    requires InOrder(s)
    ensures InsertionSort(s) == s
  {
    var n := |s|;
    if n > 0 {
      var init := s[..n - 1];
      assert InOrder(init) by {
        forall i | 0 < i < |init| ensures !(IsDone(init[i - 1]) && IsOpen(init[i])) {
          assert init[i - 1] == s[i - 1] && init[i] == s[i];
        }
      }
      SortLevelKeepsInOrder(init);
      assert init + [s[n - 1]] == s;
      if n > 1 {
        assert init[n - 2] == s[n - 2];
      }
    }
  }

  /** TaskSorter.sortLevel changes a group exactly when it is out of order. */
  lemma SortLevelFixedPoints(s: seq<Block>)
    ensures InsertionSort(s) == s <==> InOrder(s)
  {
    SortLevelInOrder(s);
    if InOrder(s) {
      SortLevelKeepsInOrder(s);
    }
  }

  /** A group made only of tasks is split into exactly its incomplete and its completed tasks. */
  lemma {:induction false} OpensDonesSplit(t: seq<Block>)
    requires AllTasks(t)
    ensures |Opens(t)| + |Dones(t)| == |t|
  {
    if t != [] {
      assert AllTasks(t[1..]) by {
        forall k | 0 <= k < |t[1..]| ensures t[1..][k].isTask {
          assert t[1..][k] == t[k + 1];
        }
      }
      OpensDonesSplit(t[1..]);
      assert t[0].isTask;
    }
  }

  /** The leading run of tasks is made of tasks only. */
  lemma RunIsTasks(s: seq<Block>)
    ensures AllTasks(s[..RunEnd(s, 0)])
  {
    var k := RunEnd(s, 0);
    RunEndIsMaximal(s, 0);
    forall j | 0 <= j < |s[..k]| ensures s[..k][j].isTask {
      assert s[..k][j] == s[j];
    }
  }

  /** A non-task block after the leading run of tasks keeps its index, as it does behind that run. */
  lemma PlainAfterRun(s: seq<Block>, i: nat, k: nat)
    requires s != [] && s[0].isTask && k == RunEnd(s, 0) && k <= i < |s|
    requires i - k < |Segmented(s[k..])| && Segmented(s[k..])[i - k] == s[i]
    ensures i < |Segmented(s)| && Segmented(s)[i] == s[i]
  {
    var run, rest := Opens(s[..k]) + Dones(s[..k]), Segmented(s[k..]);
    assert Segmented(s) == run + rest by {
      SegmentedRunHead(s, s, k);
    }
    assert |run| == k by {
      RunIsTasks(s);
      OpensDonesSplit(s[..k]);
    }
    IndexAfter(run, rest, i - k);
  }

  /** A non-task block after a leading non-task block keeps its index, as it does behind that block. */
  lemma PlainAfterPlain(s: seq<Block>, i: nat)
    requires 0 < i < |s| && !s[0].isTask
    requires i - 1 < |Segmented(s[1..])| && Segmented(s[1..])[i - 1] == s[i]
    ensures i < |Segmented(s)| && Segmented(s)[i] == s[i]
  {
    SegmentedPlainHead(s);
    IndexAfter([s[0]], Segmented(s[1..]), i - 1);
  }

  /** A non-task block is at the same index in the segmented group. */
  lemma {:induction false} SegmentedKeepsPlain(s: seq<Block>, i: nat)
    requires i < |s| && !s[i].isTask
    ensures i < |Segmented(s)| && Segmented(s)[i] == s[i]
    decreases |s|
  {
    if i == 0 {
      SegmentedPlainHead(s);
    } else if !s[0].isTask {
      assert s[1..][i - 1] == s[i];
      SegmentedKeepsPlain(s[1..], i - 1);
      PlainAfterPlain(s, i);
    } else {
      var k := RunEnd(s, 0);
      assert k <= i by {
        RunEndIsMaximal(s, 0);
      }
      assert s[k..][i - k] == s[i];
      SegmentedKeepsPlain(s[k..], i - k);
      PlainAfterRun(s, i, k);
    }
  }

  /** TaskSorter.sortLevel never moves a block that is not a task. */
  lemma SortLevelKeepsPlain(s: seq<Block>, i: nat)
    requires i < |s| && !s[i].isTask
    ensures i < |InsertionSort(s)| && InsertionSort(s)[i] == s[i]
  {
    SortLevelIsSegmented(s);
    SegmentedKeepsPlain(s, i);
  }

  /** A group made only of tasks comes out as its incomplete tasks and then its completed tasks, each kind in original order. */
  lemma SortLevelAllTasks(s: seq<Block>)
    requires AllTasks(s)
    ensures InsertionSort(s) == Opens(s) + Dones(s)
  {
    if s != [] {
      SortLevelIsSegmented(s);
      SegmentedAllTasks(s);
    }
  }

  lemma {:induction false} OpensOfOpens(s: seq<Block>)
    ensures Opens(Opens(s)) == Opens(s) && Dones(Opens(s)) == []
  {
    if s != [] {
      var first := if IsOpen(s[0]) then [s[0]] else [];
      OpensOfOpens(s[1..]);
      OpensAppend(first, Opens(s[1..]));
      DonesAppend(first, Opens(s[1..]));
      if IsOpen(s[0]) {
        assert [s[0]][1..] == [];
      }
    }
  }

  lemma {:induction false} DonesOfDones(s: seq<Block>)
    ensures Dones(Dones(s)) == Dones(s) && Opens(Dones(s)) == []
  {
    if s != [] {
      var first := if IsDone(s[0]) then [s[0]] else [];
      DonesOfDones(s[1..]);
      OpensAppend(first, Dones(s[1..]));
      DonesAppend(first, Dones(s[1..]));
      if IsDone(s[0]) {
        assert [s[0]][1..] == [];
      }
    }
  }

  lemma OpensAppend3(a: seq<Block>, b: seq<Block>, c: seq<Block>)
    ensures Opens(a + b + c) == Opens(a) + Opens(b) + Opens(c)
  {
    OpensAppend(a + b, c);
    OpensAppend(a, b);
  }

  lemma DonesAppend3(a: seq<Block>, b: seq<Block>, c: seq<Block>)
    ensures Dones(a + b + c) == Dones(a) + Dones(b) + Dones(c)
  {
    DonesAppend(a + b, c);
    DonesAppend(a, b);
  }

  /** Segmenting a run keeps its incomplete tasks, in order, ahead of what follows. */
  lemma RunOpens(t: seq<Block>, after: seq<Block>)
    ensures Opens(Opens(t) + Dones(t) + after) == Opens(t) + Opens(after)
  {
    var opens, dones := Opens(t), Dones(t);
    OpensAppend3(opens, dones, after);
    OpensOfOpens(t);
    DonesOfDones(t);
    assert opens + [] == opens;
  }

  /** Segmenting a run keeps its completed tasks, in order, ahead of what follows. */
  lemma RunDones(t: seq<Block>, after: seq<Block>)
    ensures Dones(Opens(t) + Dones(t) + after) == Dones(t) + Dones(after)
  {
    var opens, dones := Opens(t), Dones(t);
    DonesAppend3(opens, dones, after);
    OpensOfOpens(t);
    DonesOfDones(t);
    assert [] + dones == dones;
  }

  lemma OpensSegmentedPlainHead(s: seq<Block>)
    requires s != [] && !s[0].isTask
    requires Opens(Segmented(s[1..])) == Opens(s[1..])
    ensures Opens(Segmented(s)) == Opens(s)
  {
    var rest := Segmented(s[1..]);
    assert Segmented(s) == [s[0]] + rest by {
      SegmentedPlainHead(s);
    }
    OpensAppend([s[0]], rest);
    OpensAppend([s[0]], s[1..]);
    assert [s[0]] + s[1..] == s;
  }

  /** A run segmented in front of the rest keeps the incomplete tasks of the run and of the rest. */
  lemma OpensRunStep(t: seq<Block>, u: seq<Block>, rest: seq<Block>)
    requires Opens(rest) == Opens(u)
    ensures Opens(Opens(t) + Dones(t) + rest) == Opens(t + u)
  {
    RunOpens(t, rest);
    OpensAppend(t, u);
  }

  lemma OpensSegmentedRunHead(s: seq<Block>, k: nat)
    requires s != [] && s[0].isTask && k == RunEnd(s, 0)
    requires Opens(Segmented(s[k..])) == Opens(s[k..])
    ensures Opens(Segmented(s)) == Opens(s)
  {
    SegmentedRunHead(s, s, k);
    OpensRunStep(s[..k], s[k..], Segmented(s[k..]));
    TakeDrop(s, k);
  }

  /** Segmenting keeps the incomplete tasks in their order. */
  lemma {:induction false} SegmentedKeepsOpens(s: seq<Block>)
    ensures Opens(Segmented(s)) == Opens(s)
    decreases |s|
  {
    if s != [] {
      if !s[0].isTask {
        SegmentedKeepsOpens(s[1..]);
        OpensSegmentedPlainHead(s);
      } else {
        var k := RunEnd(s, 0);
        SegmentedKeepsOpens(s[k..]);
        OpensSegmentedRunHead(s, k);
      }
    }
  }

  lemma DonesSegmentedPlainHead(s: seq<Block>)
    requires s != [] && !s[0].isTask
    requires Dones(Segmented(s[1..])) == Dones(s[1..])
    ensures Dones(Segmented(s)) == Dones(s)
  {
    var rest := Segmented(s[1..]);
    assert Segmented(s) == [s[0]] + rest by {
      SegmentedPlainHead(s);
    }
    DonesAppend([s[0]], rest);
    DonesAppend([s[0]], s[1..]);
    assert [s[0]] + s[1..] == s;
  }

  /** A run segmented in front of the rest keeps the completed tasks of the run and of the rest. */
  lemma DonesRunStep(t: seq<Block>, u: seq<Block>, rest: seq<Block>)
    requires Dones(rest) == Dones(u)
    ensures Dones(Opens(t) + Dones(t) + rest) == Dones(t + u)
  {
    RunDones(t, rest);
    DonesAppend(t, u);
  }

  lemma DonesSegmentedRunHead(s: seq<Block>, k: nat)
    requires s != [] && s[0].isTask && k == RunEnd(s, 0)
    requires Dones(Segmented(s[k..])) == Dones(s[k..])
    ensures Dones(Segmented(s)) == Dones(s)
  {
    SegmentedRunHead(s, s, k);
    DonesRunStep(s[..k], s[k..], Segmented(s[k..]));
    TakeDrop(s, k);
  }

  /** Segmenting keeps the completed tasks in their order. */
  lemma {:induction false} SegmentedKeepsDones(s: seq<Block>)
    ensures Dones(Segmented(s)) == Dones(s)
    decreases |s|
  {
    if s != [] {
      if !s[0].isTask {
        SegmentedKeepsDones(s[1..]);
        DonesSegmentedPlainHead(s);
      } else {
        var k := RunEnd(s, 0);
        SegmentedKeepsDones(s[k..]);
        DonesSegmentedRunHead(s, k);
      }
    }
  }

  /**
   * TaskSorter.sortLevel is stable for each kind of task: the incomplete
   * tasks keep their relative order, and so do the completed ones.
   */
  lemma SortLevelStable(s: seq<Block>)
    ensures Opens(InsertionSort(s)) == Opens(s) && Dones(InsertionSort(s)) == Dones(s)
  {
    SortLevelIsSegmented(s);
    SegmentedKeepsOpens(s);
    SegmentedKeepsDones(s);
  }
}
