/** The first-come, first-serve scheduler of labs 4 and 4.5: tasks run λ-programs, and each
    scheduling step advances the programs of up to `coreCount` outstanding tasks by one reduction. */
module Scheduler {
  import opened Lambda

  /** The state of a process. */
  datatype State = Ready | Running | Terminated

  /** A process: the program it executes, its priority (higher is more important) and its state. */
  datatype Task = Task(program: Term, priority: bv8, state: State)

  function Min(a: nat, b: nat): nat
  {
    if a <= b then a else b
  }

  /** The elements are strictly increasing. */
  predicate Increasing(s: seq<nat>)
  {
    forall i, j :: 0 <= i < j < |s| ==> s[i] < s[j]
  }

  /** Every element indexes `ts`. */
  predicate Indexes(ts: seq<Task>, ids: seq<nat>)
  {
    forall i :: 0 <= i < |ids| ==> ids[i] < |ts|
  }

  /** `task` after one turn on a core: its program is stepped once, and it becomes Running if the
      program reduced and Terminated otherwise. A task can only terminate when it cannot step. */
  function Advance(task: Task): (r: Task)
    ensures r.priority == task.priority
    ensures r.state == Running <==> HasRedex(task.program)
    ensures r.state == Terminated <==> !HasRedex(task.program)
    ensures r.state == Terminated ==> r.program == task.program
  {
    StepIffRedex(task.program);
    var (stepped, program) := Step(task.program);
    task.(program := program, state := if stepped then Running else Terminated)
  }

  /** The entries of `ids` whose task's program steps, in their order in `ids`: what is left of a
      visited prefix of the work list once the terminated tasks are erased. */
  function Survivors(ts: seq<Task>, ids: seq<nat>): (r: seq<nat>)
    requires Indexes(ts, ids)
    ensures |r| <= |ids|
    decreases |ids|
  {
    if ids == [] then []
    else
      var rest := Survivors(ts, ids[..|ids| - 1]);
      var t := ids[|ids| - 1];
      assert ids == ids[..|ids| - 1] + [t];
      if HasRedex(ts[t].program) then rest + [t] else rest
  }

  /** The survivors are exactly the listed tasks whose program holds a redex. */
  lemma {:induction false} SurvivorsMembers(ts: seq<Task>, ids: seq<nat>)
    requires Indexes(ts, ids)
    ensures forall x :: x in Survivors(ts, ids) <==> x in ids && HasRedex(ts[x].program)
    decreases |ids|
  {
    if ids != [] {
      var init := ids[..|ids| - 1];
      SurvivorsMembers(ts, init);
      assert ids == init + [ids[|ids| - 1]];
    }
  }

  /** Erasing entries keeps the others in order. */
  lemma {:induction false} SurvivorsIncreasing(ts: seq<Task>, ids: seq<nat>)
    requires Indexes(ts, ids) && Increasing(ids)
    ensures Increasing(Survivors(ts, ids))
    decreases |ids|
  {
    if ids != [] {
      var init := ids[..|ids| - 1];
      var t := ids[|ids| - 1];
      assert Increasing(init);
      SurvivorsIncreasing(ts, init);
      SurvivorsMembers(ts, init);
      var rest := Survivors(ts, init);
      forall x | x in rest ensures x < t {
        var k :| 0 <= k < |init| && init[k] == x;
        assert ids[k] == x;
      }
      if HasRedex(ts[t].program) {
        var r := rest + [t];
        forall i, j | 0 <= i < j < |r| ensures r[i] < r[j] {
          if j == |rest| { assert r[i] in rest; }
        }
      }
    }
  }

  /** In a strictly increasing list every entry before position `n` is below every entry after it. */
  lemma FrontBeforeBack(work: seq<nat>, n: nat)
    requires Increasing(work) && n <= |work|
    ensures forall x, y :: x in work[..n] && y in work[n..] ==> x < y
  {
    forall x, y | x in work[..n] && y in work[n..] ensures x < y {
      var i :| 0 <= i < n && work[..n][i] == x;
      var j :| 0 <= j < |work| - n && work[n..][j] == y;
      assert work[i] == x && work[n + j] == y;
    }
  }

  /** The number of entries at the front of the work list that a step visits. */
  function Visited(coreCount: nat, work: seq<nat>): (n: nat)
    ensures n <= |work| && n <= coreCount
    ensures n == |work| || n == coreCount
  {
    Min(coreCount, |work|)
  }

  /** The work list after a step: the survivors of the visited prefix, then the rest unchanged. */
  function NextWork(coreCount: nat, ts: seq<Task>, work: seq<nat>): seq<nat>
    requires Indexes(ts, work)
  {
    var n := Visited(coreCount, work);
    Survivors(ts, work[..n]) + work[n..]
  }

  /** Visiting one more task appends it to the survivors exactly when its program steps. */
  lemma SurvivorsSnoc(ts: seq<Task>, ids: seq<nat>, k: nat)
    requires Indexes(ts, ids) && k < |ids|
    ensures Survivors(ts, ids[..k + 1]) ==
      Survivors(ts, ids[..k]) + if HasRedex(ts[ids[k]].program) then [ids[k]] else []
  {
    assert ids[..k + 1][..k] == ids[..k];
  }

  /** Erasing the entry at position `|kept|` of `kept + [x] + rest` leaves `kept + rest`. */
  lemma EraseAt(work: seq<nat>, kept: seq<nat>, x: nat, rest: seq<nat>)
    requires work == kept + [x] + rest
    ensures work[..|kept|] + work[|kept| + 1..] == kept + rest
  {
    assert work[..|kept|] == kept;
    assert work[|kept| + 1..] == rest;
  }

  /** Erasing one entry of a strictly increasing list keeps it strictly increasing; every
      entry from the erased position on is the next entry of the old list. */
  lemma EraseKeepsIncreasing(s: seq<nat>, j: nat)
    requires Increasing(s) && j < |s|
    ensures |s[..j] + s[j + 1..]| == |s| - 1
    ensures forall i :: 0 <= i < |s| - 1 ==> (s[..j] + s[j + 1..])[i] == if i < j then s[i] else s[i + 1]
    ensures Increasing(s[..j] + s[j + 1..])
  {
  }

  /** The entries of `list` from position `j` on are tasks that have not terminated. */
  predicate LiveFrom(ts: seq<Task>, list: seq<nat>, j: nat)
    requires Indexes(ts, list)
  {
    forall i :: j <= i < |list| ==> ts[list[i]].state != Terminated
  }

  /** Updating the task at position `j` of a strictly increasing list and then either moving past
      it or erasing it keeps the rest of the list live. */
  lemma LiveAfterVisit(ts: seq<Task>, list: seq<nat>, j: nat, v: Task)
    requires Indexes(ts, list) && Increasing(list) && j < |list| && LiveFrom(ts, list, j)
    ensures Indexes(ts[list[j] := v], list) && LiveFrom(ts[list[j] := v], list, j + 1)
    ensures Indexes(ts, list[..j] + list[j + 1..]) && Increasing(list[..j] + list[j + 1..])
    ensures LiveFrom(ts[list[j] := v], list[..j] + list[j + 1..], j)
  {
    EraseKeepsIncreasing(list, j);
    forall i | j + 1 <= i < |list| ensures ts[list[j] := v][list[i]] == ts[list[i]] {
      assert list[j] < list[i];
    }
  }

  /** One iteration of the scheduling loop, on values: `p` entries of `work` have been visited,
      `j` of them survived, `list` is the work list and `cur` the tasks so far. The next entry is
      the task `work[p]`, found at position `j` of the list and not yet advanced; advancing it and
      keeping it (when its program steps) or erasing it (when not) gives the state after `p + 1`
      visits. */
  lemma VisitNext(ts: seq<Task>, work: seq<nat>, p: nat, j: nat, list: seq<nat>)
    requires Indexes(ts, work) && Increasing(work) && p < |work|
    requires |Survivors(ts, work[..p])| == j && list == Survivors(ts, work[..p]) + work[p..]
    ensures j < |list| && list[j] == work[p] && work[p] < |ts|
    ensures HasRedex(ts[work[p]].program) ==>
      |Survivors(ts, work[..p + 1])| == j + 1 && list == Survivors(ts, work[..p + 1]) + work[p + 1..]
    ensures !HasRedex(ts[work[p]].program) ==>
      |Survivors(ts, work[..p + 1])| == j &&
      list[..j] + list[j + 1..] == Survivors(ts, work[..p + 1]) + work[p + 1..]
  {
    var t := work[p];
    var kept := Survivors(ts, work[..p]);
    SurvivorsSnoc(ts, work, p);
    assert work[..p + 1] == work[..p] + [t];
    assert work[p..] == [t] + work[p + 1..];
    assert list == kept + [t] + work[p + 1..];
    if !HasRedex(ts[t].program) {
      EraseAt(list, kept, t, work[p + 1..]);
    }
  }

  /** The tasks with every task listed in `visited` advanced once and every other task unchanged. */
  function AdvanceAmong(ts: seq<Task>, visited: seq<nat>): seq<Task>
  {
    seq(|ts|, t requires 0 <= t < |ts| => if t in visited then Advance(ts[t]) else ts[t])
  }

  /** The tasks after a step: each visited task is advanced, every other task is unchanged. */
  function NextTasks(coreCount: nat, ts: seq<Task>, work: seq<nat>): seq<Task>
  {
    AdvanceAmong(ts, work[..Visited(coreCount, work)])
  }

  /** The scheduling loop on values, one iteration per call: `p` tasks have been visited, the
      next one is at position `j` of `list`; it is stepped once, and kept in the list when its
      program reduced or erased from it when not. The loop stops after `coreCount` visits or at
      the end of the list. */
  function Serve(coreCount: nat, ts: seq<Task>, list: seq<nat>, p: nat, j: nat): (seq<Task>, seq<nat>)
    requires j <= |list| && Indexes(ts, list)
    decreases coreCount - p
  {
    if p < coreCount && j < |list| then
      var t := list[j];
      var (stepped, program) := Step(ts[t].program);
      if stepped then
        Serve(coreCount, ts[t := ts[t].(program := program, state := Running)], list, p + 1, j + 1)
      else
        var rest := list[..j] + list[j + 1..];
        assert forall i :: 0 <= i < |rest| ==> rest[i] == if i < j then list[i] else list[i + 1];
        Serve(coreCount, ts[t := ts[t].(program := program, state := Terminated)], rest, p + 1, j)
    else
      (ts, list)
  }

  /** From any point of the loop where `p` entries of `work` were visited, `j` of them survived,
      `list` is the current work list and `cur` the current tasks, the loop ends in the state
      that `NextTasks` and `NextWork` describe. */
  lemma {:induction false} ServeFrom(coreCount: nat, ts: seq<Task>, work: seq<nat>, p: nat, j: nat,
                                     cur: seq<Task>, list: seq<nat>)
    requires Indexes(ts, work) && Increasing(work) && p <= Visited(coreCount, work)
    requires |Survivors(ts, work[..p])| == j && list == Survivors(ts, work[..p]) + work[p..]
    requires cur == AdvanceAmong(ts, work[..p])
    ensures j <= |list| && Indexes(cur, list)
    ensures Serve(coreCount, cur, list, p, j) == (NextTasks(coreCount, ts, work), NextWork(coreCount, ts, work))
    decreases coreCount - p
  {
    ListIndexes(ts, work, p, list);
    if p < coreCount && j < |list| {
      assert p < |work|;
      var t := work[p];
      var next := AdvanceAmong(ts, work[..p + 1]);
      ServeVisit(coreCount, ts, work, p, j, cur, list);
      if HasRedex(ts[t].program) {
        ServeFrom(coreCount, ts, work, p + 1, j + 1, next, list);
      } else {
        ServeFrom(coreCount, ts, work, p + 1, j, next, list[..j] + list[j + 1..]);
      }
    }
  }

  /** One visit of the loop on values: the task `work[p]` is at position `j` of the list; it is
      advanced, and kept in the list when its program steps or erased from it when not. */
  lemma ServeVisit(coreCount: nat, ts: seq<Task>, work: seq<nat>, p: nat, j: nat, cur: seq<Task>, list: seq<nat>)
    requires Indexes(ts, work) && Increasing(work) && p < coreCount && p < |work|
    requires |Survivors(ts, work[..p])| == j && list == Survivors(ts, work[..p]) + work[p..]
    requires cur == AdvanceAmong(ts, work[..p]) && Indexes(cur, list)
    ensures j < |list| && Indexes(AdvanceAmong(ts, work[..p + 1]), list)
    ensures HasRedex(ts[work[p]].program) ==>
      && |Survivors(ts, work[..p + 1])| == j + 1 && list == Survivors(ts, work[..p + 1]) + work[p + 1..]
      && Serve(coreCount, cur, list, p, j) == Serve(coreCount, AdvanceAmong(ts, work[..p + 1]), list, p + 1, j + 1)
    ensures !HasRedex(ts[work[p]].program) ==>
      && |Survivors(ts, work[..p + 1])| == j
      && list[..j] + list[j + 1..] == Survivors(ts, work[..p + 1]) + work[p + 1..]
      && Indexes(AdvanceAmong(ts, work[..p + 1]), list[..j] + list[j + 1..])
      && Serve(coreCount, cur, list, p, j) ==
         Serve(coreCount, AdvanceAmong(ts, work[..p + 1]), list[..j] + list[j + 1..], p + 1, j)
  {
    VisitNext(ts, work, p, j, list);
    AdvanceOneMore(ts, work, p);
    StepIffRedex(ts[work[p]].program);
    if !HasRedex(ts[work[p]].program) {
      ListIndexes(ts, work, p + 1, list[..j] + list[j + 1..]);
    }
  }

  /** Every entry of the work list, part-way through a step, still indexes the tasks. */
  lemma ListIndexes(ts: seq<Task>, work: seq<nat>, p: nat, list: seq<nat>)
    requires Indexes(ts, work) && p <= |work|
    requires list == Survivors(ts, work[..p]) + work[p..]
    ensures Indexes(ts, list)
  {
    SurvivorsMembers(ts, work[..p]);
    forall i | 0 <= i < |list| ensures list[i] < |ts| {
      if i < |Survivors(ts, work[..p])| {
        assert list[i] in Survivors(ts, work[..p]);
      } else {
        assert list[i] == work[p + (i - |Survivors(ts, work[..p])|)];
      }
    }
  }

  /** Advancing the next task of the work list, which has not been advanced yet, extends the
      visited prefix by one. */
  lemma AdvanceOneMore(ts: seq<Task>, work: seq<nat>, p: nat)
    requires Indexes(ts, work) && Increasing(work) && p < |work|
    ensures AdvanceAmong(ts, work[..p])[work[p]] == ts[work[p]]
    ensures AdvanceAmong(ts, work[..p])[work[p] := Advance(ts[work[p]])] == AdvanceAmong(ts, work[..p + 1])
  {
    var t := work[p];
    forall k | 0 <= k < p ensures work[..p][k] != t {
      assert work[k] < work[p];
    }
    assert work[..p + 1] == work[..p] + [t];
  }

  /** The scheduler's invariant: the work list holds strictly increasing indices of tasks that are
      not terminated, every task left out of it has terminated, and every running task is among
      the first `coreCount` entries of the list. */
  ghost predicate Consistent(coreCount: nat, ts: seq<Task>, work: seq<nat>)
  {
    && Indexes(ts, work)
    && Increasing(work)
    && (forall i :: 0 <= i < |work| ==> ts[work[i]].state != Terminated)
    && (forall t :: 0 <= t < |ts| && t !in work ==> ts[t].state == Terminated)
    && (forall t :: 0 <= t < |ts| && ts[t].state == Running ==> t in work[..Visited(coreCount, work)])
  }

  /** The indices in `[0, n)` of the tasks in state `s`. */
  function InState(ts: seq<Task>, s: State, n: nat): (r: set<nat>)
    requires n <= |ts|
    ensures forall t: nat :: t in r <==> t < n && ts[t].state == s
  {
    if n == 0 then {} else InState(ts, s, n - 1) + if ts[n - 1].state == s then {n - 1} else {}
  }

  /** The set of entries of `s`, which has no more elements than `s` has entries. */
  function Elements(s: seq<nat>): (r: set<nat>)
    ensures forall x :: x in r <==> x in s
    ensures |r| <= |s|
  {
    if s == [] then {} else
      var init := s[..|s| - 1];
      assert s == init + [s[|s| - 1]];
      Elements(init) + {s[|s| - 1]}
  }

  lemma SubsetBound(a: set<nat>, b: set<nat>)
    requires a <= b
    ensures |a| <= |b|
  {
    assert b == a + (b - a);
  }

  /** In a consistent state at most `coreCount` tasks are running. */
  lemma RunningBounded(coreCount: nat, ts: seq<Task>, work: seq<nat>)
    requires Consistent(coreCount, ts, work)
    ensures |InState(ts, Running, |ts|)| <= coreCount
  {
    var front := work[..Visited(coreCount, work)];
    SubsetBound(InState(ts, Running, |ts|), Elements(front));
  }

  /** A step on an empty work list changes nothing. */
  lemma EmptyWorkUnchanged(coreCount: nat, ts: seq<Task>)
    ensures NextWork(coreCount, ts, []) == []
    ensures NextTasks(coreCount, ts, []) == ts
  {
  }

  /** A step removes from the work list exactly the visited entries whose program cannot step,
      and terminates exactly the visited tasks whose program cannot step. */
  lemma StepOutcome(coreCount: nat, ts: seq<Task>, work: seq<nat>)
    requires Indexes(ts, work) && Increasing(work)
    ensures |NextTasks(coreCount, ts, work)| == |ts|
    ensures forall x :: x in NextWork(coreCount, ts, work) <==>
      x in work && (x in work[..Visited(coreCount, work)] ==> HasRedex(ts[x].program))
    ensures forall t :: 0 <= t < |ts| && t in work[..Visited(coreCount, work)] ==>
      (NextTasks(coreCount, ts, work)[t].state == Terminated <==> !HasRedex(ts[t].program))
  {
    var n := Visited(coreCount, work);
    assert work == work[..n] + work[n..];
    FrontBeforeBack(work, n);
    SurvivorsMembers(ts, work[..n]);
  }

  /** After a step the work list is still strictly increasing and indexes the tasks. */
  lemma NextWorkIncreasing(coreCount: nat, ts: seq<Task>, work: seq<nat>)
    requires Indexes(ts, work) && Increasing(work)
    ensures Indexes(ts, NextWork(coreCount, ts, work)) && Increasing(NextWork(coreCount, ts, work))
  {
    var n := Visited(coreCount, work);
    var survivors := Survivors(ts, work[..n]);
    ListIndexes(ts, work, n, survivors + work[n..]);
    SurvivorsIncreasing(ts, work[..n]);
    SurvivorsMembers(ts, work[..n]);
    FrontBeforeBack(work, n);
    assert Increasing(work[n..]) by {
      forall i, j | 0 <= i < j < |work| - n ensures work[n..][i] < work[n..][j] {
        assert work[n + i] < work[n + j];
      }
    }
    ConcatIncreasing(survivors, work[n..]);
  }

  /** Joining two strictly increasing lists, the first entirely below the second, gives a strictly
      increasing list. */
  lemma ConcatIncreasing(a: seq<nat>, b: seq<nat>)
    requires Increasing(a) && Increasing(b)
    requires forall x, y :: x in a && y in b ==> x < y
    ensures Increasing(a + b)
  {
    forall i, j | 0 <= i < j < |a + b| ensures (a + b)[i] < (a + b)[j] {
      if i < |a| <= j {
        assert (a + b)[i] in a && (a + b)[j] in b;
      } else if |a| <= i {
        assert (a + b)[i] == b[i - |a|] && (a + b)[j] == b[j - |a|];
      }
    }
  }

  /** After a step no entry of the work list is a terminated task. */
  lemma NextWorkLive(coreCount: nat, ts: seq<Task>, work: seq<nat>)
    requires Consistent(coreCount, ts, work)
    ensures Indexes(ts, NextWork(coreCount, ts, work))
    ensures forall i :: 0 <= i < |NextWork(coreCount, ts, work)| ==>
      NextTasks(coreCount, ts, work)[NextWork(coreCount, ts, work)[i]].state != Terminated
  {
    NextWorkIncreasing(coreCount, ts, work);
    StepOutcome(coreCount, ts, work);
    var work' := NextWork(coreCount, ts, work);
    forall i | 0 <= i < |work'|
      ensures NextTasks(coreCount, ts, work)[work'[i]].state != Terminated
    {
      var x := work'[i];
      assert x in work';
      var k :| 0 <= k < |work| && work[k] == x;
    }
  }

  /** After a step every running task is among the first `coreCount` entries of the work list. */
  lemma NextRunningInFront(coreCount: nat, ts: seq<Task>, work: seq<nat>)
    requires Consistent(coreCount, ts, work)
    ensures Indexes(ts, NextWork(coreCount, ts, work))
    ensures forall t :: 0 <= t < |ts| && NextTasks(coreCount, ts, work)[t].state == Running ==>
      t in NextWork(coreCount, ts, work)[..Visited(coreCount, NextWork(coreCount, ts, work))]
  {
    NextWorkIncreasing(coreCount, ts, work);
    var n := Visited(coreCount, work);
    var survivors := Survivors(ts, work[..n]);
    var work' := NextWork(coreCount, ts, work);
    var ts' := NextTasks(coreCount, ts, work);
    var n' := Visited(coreCount, work');
    SurvivorsMembers(ts, work[..n]);
    assert |survivors| <= n';
    forall t | 0 <= t < |ts| && ts'[t].state == Running ensures t in work'[..n'] {
      assert t in work[..n];
      assert t in survivors;
      var k :| 0 <= k < |survivors| && survivors[k] == t;
      assert work'[..n'][k] == t;
    }
  }

  /** A step changes only the tasks it visits: each of the first `Visited` entries of the work
      list is advanced once, and every other task keeps its program, priority and state. */
  lemma StepTouchesVisited(coreCount: nat, ts: seq<Task>, work: seq<nat>)
    requires Indexes(ts, work)
    ensures |NextTasks(coreCount, ts, work)| == |ts|
    ensures forall i :: 0 <= i < Visited(coreCount, work) ==>
      NextTasks(coreCount, ts, work)[work[i]] == Advance(ts[work[i]])
    ensures forall t :: 0 <= t < |ts| && t !in work[..Visited(coreCount, work)] ==>
      NextTasks(coreCount, ts, work)[t] == ts[t]
  {
    var n := Visited(coreCount, work);
    forall i | 0 <= i < n ensures NextTasks(coreCount, ts, work)[work[i]] == Advance(ts[work[i]]) {
      assert work[..n][i] == work[i];
    }
  }

  /** After a step every task left out of the work list has terminated: a task leaves the list
      only when its visit found nothing to reduce. */
  lemma NextWorkDone(coreCount: nat, ts: seq<Task>, work: seq<nat>)
    requires Consistent(coreCount, ts, work)
    ensures |NextTasks(coreCount, ts, work)| == |ts|
    ensures forall t :: 0 <= t < |ts| && t !in NextWork(coreCount, ts, work) ==>
      NextTasks(coreCount, ts, work)[t].state == Terminated
  {
    StepOutcome(coreCount, ts, work);
    StepTouchesVisited(coreCount, ts, work);
    var n := Visited(coreCount, work);
    assert work == work[..n] + work[n..];
  }

  /** With no work left every task has terminated: the scheduler reports no progress only when
      the whole system is done. */
  lemma IdleMeansTerminated(coreCount: nat, ts: seq<Task>)
    requires Consistent(coreCount, ts, [])
    ensures forall t :: 0 <= t < |ts| ==> ts[t].state == Terminated
  {
  }

  /** A step keeps the scheduler consistent. */
  lemma StepKeepsConsistent(coreCount: nat, ts: seq<Task>, work: seq<nat>)
    requires Consistent(coreCount, ts, work)
    ensures Consistent(coreCount, NextTasks(coreCount, ts, work), NextWork(coreCount, ts, work))
  {
    NextWorkIncreasing(coreCount, ts, work);
    NextWorkLive(coreCount, ts, work);
    NextRunningInFront(coreCount, ts, work);
    NextWorkDone(coreCount, ts, work);
    StepOutcome(coreCount, ts, work);
  }

  /** The state of the scheduling loop: `j` is within the list, which indexes the tasks, is
      strictly increasing and live from `j`, and running the loop on from here gives `goal`. */
  predicate Serving(coreCount: nat, cur: seq<Task>, list: seq<nat>, p: nat, j: nat,
                    goal: (seq<Task>, seq<nat>))
  {
    && j <= |list| && Indexes(cur, list) && Increasing(list) && LiveFrom(cur, list, j)
    && Serve(coreCount, cur, list, p, j) == goal
  }

  /** One visit of the loop keeps its state: the task at position `j` gets the program `Step`
      gives it and becomes Running when that stepped (the loop moves past it) or Terminated when
      not (the loop erases it). */
  lemma ServingAfterVisit(coreCount: nat, cur: seq<Task>, list: seq<nat>, p: nat, j: nat,
                          goal: (seq<Task>, seq<nat>), stepped: bool, program: Term, v: Task)
    requires Serving(coreCount, cur, list, p, j, goal) && p < coreCount && j < |list|
    requires (stepped, program) == Step(cur[list[j]].program)
    requires v == cur[list[j]].(program := program, state := if stepped then Running else Terminated)
    ensures stepped ==> Serving(coreCount, cur[list[j] := v], list, p + 1, j + 1, goal)
    ensures !stepped ==> Serving(coreCount, cur[list[j] := v], list[..j] + list[j + 1..], p + 1, j, goal)
  {
    LiveAfterVisit(cur, list, j, v);
  }

  /** The loop starts in a state from which it runs to what `NextTasks` and `NextWork` say. */
  lemma ServingStart(coreCount: nat, ts: seq<Task>, work: seq<nat>)
    requires Indexes(ts, work) && Increasing(work) && LiveFrom(ts, work, 0)
    ensures Serving(coreCount, ts, work, 0, 0, (NextTasks(coreCount, ts, work), NextWork(coreCount, ts, work)))
  {
    assert AdvanceAmong(ts, work[..0]) == ts;
    ServeFrom(coreCount, ts, work, 0, 0, ts, work);
  }

  /** When the loop stops, the tasks and the list are the ones it was to reach. */
  lemma ServingDone(coreCount: nat, cur: seq<Task>, list: seq<nat>, p: nat, j: nat,
                    goal: (seq<Task>, seq<nat>))
    requires Serving(coreCount, cur, list, p, j, goal) && !(p < coreCount && j < |list|)
    ensures cur == goal.0 && list == goal.1
  {
  }

  /** The scheduler of a fixed set of tasks, sharing the task array with its owner. */
  class Fcfs {
    /** The number of cores; the scheduler visits at most this many tasks per step. */
    const coreCount: nat

    /** The tasks to process; the scheduler never resizes or reorders them. */
    const tasks: array<Task>

    /** The indices of the tasks not yet completed. */
    var work: seq<nat>

    ghost predicate Valid()
      reads this, tasks
    {
      Consistent(coreCount, tasks[..], work)
    }

    /** Schedules `tasks`: every index is outstanding, in increasing order. */
    constructor (coreCount: nat, tasks: array<Task>)
      requires coreCount > 0
      ensures this.coreCount == coreCount && this.tasks == tasks
      ensures |work| == tasks.Length && forall k :: 0 <= k < |work| ==> work[k] == k
      ensures (forall t :: 0 <= t < tasks.Length ==> tasks[t].state == Ready) ==> Valid()
    {
      this.coreCount := coreCount;
      this.tasks := tasks;
      var w: seq<nat> := [];
      var i := tasks.Length;
      while i > 0
        invariant 0 <= i <= tasks.Length
        invariant |w| == tasks.Length - i && forall k :: 0 <= k < |w| ==> w[k] == i + k
      {
        w := [i - 1] + w;
        i := i - 1;
      }
      forall t | 0 <= t < tasks.Length ensures t in w {
        assert w[t] == t;
      }
      work := w;
    }

    /** Advances the system: returns false, changing nothing, when no work is left; otherwise
        steps the first `coreCount` outstanding tasks in order, erases those that terminated from
        the work list and returns true, whether or not any task stepped. */
    method Step() returns (progressed: bool)
      requires Valid()
      modifies this, tasks
      ensures progressed <==> old(work) != []
      ensures !progressed ==> forall t :: 0 <= t < tasks.Length ==> tasks[t].state == Terminated
      ensures work == NextWork(coreCount, old(tasks[..]), old(work))
      ensures tasks[..] == NextTasks(coreCount, old(tasks[..]), old(work))
      ensures Valid()
    {
      if work == [] {
        IdleMeansTerminated(coreCount, tasks[..]);
        return false;
      }
      StepKeepsConsistent(coreCount, tasks[..], work);
      work := ServeFront(work);
      progressed := true;
    }

    /** The loop of `Step`: walks `list` from the front, stepping the program of each task it
        visits, until `coreCount` tasks were visited or the list ends. Returns the list. */
    method ServeFront(list0: seq<nat>) returns (list: seq<nat>)
      requires Indexes(tasks[..], list0) && Increasing(list0) && LiveFrom(tasks[..], list0, 0)
      modifies tasks
      ensures list == NextWork(coreCount, old(tasks[..]), list0)
      ensures tasks[..] == NextTasks(coreCount, old(tasks[..]), list0)
    {
      ghost var goal := (NextTasks(coreCount, tasks[..], list0), NextWork(coreCount, tasks[..], list0));
      ServingStart(coreCount, tasks[..], list0);
      list := list0;
      var processed: nat := 0;
      var j: nat := 0;
      while processed < coreCount && j < |list|
        invariant Serving(coreCount, tasks[..], list, processed, j, goal)
        decreases coreCount - processed
      {
        list, j := Visit(list, processed, j, goal);
        processed := processed + 1;
      }
      ServingDone(coreCount, tasks[..], list, processed, j, goal);
    }

    /** One iteration of the loop: the task at position `j` of `list` is stepped once; it becomes
        Running and the loop moves past it when its program reduced, or Terminated and is erased
        from the list when not. */
    method Visit(list: seq<nat>, processed: nat, j: nat, ghost goal: (seq<Task>, seq<nat>))
      returns (list': seq<nat>, j': nat)
      requires Serving(coreCount, tasks[..], list, processed, j, goal)
      requires processed < coreCount && j < |list|
      modifies tasks
      ensures Serving(coreCount, tasks[..], list', processed + 1, j', goal)
    {
      ghost var before := tasks[..];
      var t := list[j];
      var task := tasks[t];
      var (stepped, program) := Lambda.Step(task.program);
      var v := task.(program := program, state := if stepped then Running else Terminated);
      ServingAfterVisit(coreCount, before, list, processed, j, goal, stepped, program, v);
      tasks[t] := v;
      assert tasks[..] == before[t := v];
      if stepped {
        list', j' := list, j + 1;
      } else {
        list', j' := list[..j] + list[j + 1..], j;
      }
    }

  }
}
