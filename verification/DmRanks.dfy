/** Deadline-monotonic priorities, numbered as the tasks are created (GetTaskPriority). */
module DmRanks {
  import opened Common

  datatype Task = Task(deadline: int, priority: nat)

  /** Whether task j has priority over task i: the shorter deadline, then the one created
      first. */
  predicate Ahead(deadlines: seq<int>, j: nat, i: nat)
    requires j < |deadlines| && i < |deadlines|
  {
    deadlines[j] < deadlines[i] || (deadlines[j] == deadlines[i] && j < i)
  }

  function AheadOf(deadlines: seq<int>, i: nat): set<nat>
    requires i < |deadlines|
  {
    set j: nat | j < |deadlines| && Ahead(deadlines, j, i)
  }

  function Rank(deadlines: seq<int>, i: nat): nat
    requires i < |deadlines|
  {
    |AheadOf(deadlines, i)|
  }

  lemma SmallerSet<T>(a: set<T>, b: set<T>)
    requires a <= b
    ensures |a| <= |b| && (a != b ==> |a| < |b|)
  {
    assert b == a + (b - a);
  }

  function UpTo(n: nat): (r: set<nat>)
    ensures |r| == n && forall x: nat :: x in r <==> x < n
  {
    if n == 0 then {} else UpTo(n - 1) + {n - 1}
  }

  /** Ranks go by priority, and are below the number of tasks. */
  lemma RanksInOrder(deadlines: seq<int>, i: nat, j: nat)
    requires i < |deadlines| && j < |deadlines|
    ensures Rank(deadlines, i) < |deadlines|
    ensures Rank(deadlines, i) < Rank(deadlines, j) <==> Ahead(deadlines, i, j)
    ensures Rank(deadlines, i) == Rank(deadlines, j) ==> i == j
  {
    var a, b := AheadOf(deadlines, i), AheadOf(deadlines, j);
    assert i in UpTo(|deadlines|) && i !in a;
    SmallerSet(a, UpTo(|deadlines|));
    if Ahead(deadlines, i, j) {
      assert i in b;
      SmallerSet(a, b);
    } else if Ahead(deadlines, j, i) {
      assert j in a && j !in b;
      SmallerSet(b, a);
    }
  }

  /** The ranks of the first n tasks, as many as tasks. */
  lemma {:induction false} RanksDiffer(deadlines: seq<int>, n: nat)
    requires n <= |deadlines|
    ensures |set i: nat | i < n && i < |deadlines| :: Rank(deadlines, i)| == n
  {
    if n > 0 {
      RanksDiffer(deadlines, n - 1);
      var r := set i: nat | i < n - 1 && i < |deadlines| :: Rank(deadlines, i);
      forall i: nat | i < n - 1 ensures Rank(deadlines, i) != Rank(deadlines, n - 1) {
        RanksInOrder(deadlines, i, n - 1);
      }
      assert (set i: nat | i < n && i < |deadlines| :: Rank(deadlines, i)) == r + {Rank(deadlines, n - 1)};
    }
  }

  /** The ranks are a permutation of the numbers below the number of tasks. */
  lemma RanksPermute(deadlines: seq<int>, p: nat)
    requires p < |deadlines|
    ensures exists i: nat :: i < |deadlines| && Rank(deadlines, i) == p
  {
    var n := |deadlines|;
    var r := set i: nat | i < n && i < |deadlines| :: Rank(deadlines, i);
    RanksDiffer(deadlines, n);
    forall i: nat | i < n ensures Rank(deadlines, i) in UpTo(n) {
      RanksInOrder(deadlines, i, i);
    }
    SmallerSet(r, UpTo(n));
    assert p in UpTo(n);
  }

  /** What a new task does to the ranks: those it has priority over go up by one. */
  lemma NewTask(deadlines: seq<int>, d: int)
    ensures var longer := deadlines + [d];
      && AheadOf(longer, |deadlines|) == (set j: nat | j < |deadlines| && deadlines[j] <= d)
      && forall i: nat :: i < |deadlines| ==>
           Rank(longer, i) == Rank(deadlines, i) + if deadlines[i] > d then 1 else 0
  {
    var longer, n := deadlines + [d], |deadlines|;
    forall i: nat | i < n ensures Rank(longer, i) == Rank(deadlines, i) + if deadlines[i] > d then 1 else 0 {
      if deadlines[i] > d {
        assert AheadOf(longer, i) == AheadOf(deadlines, i) + {n};
      } else {
        assert AheadOf(longer, i) == AheadOf(deadlines, i);
      }
    }
  }

  /** The numbers below n are in two lists, each once in one of them. */
  ghost predicate Partition(a: seq<nat>, b: seq<nat>, n: nat) {
    forall x: nat :: multiset(a)[x] + multiset(b)[x] == if x < n then 1 else 0
  }

  lemma PartitionOf(a: seq<nat>, b: seq<nat>, n: nat)
    requires Partition(a, b, n)
    ensures forall x: nat :: x < n ==> (x in a <==> x !in b)
    ensures Below(a, n) && Below(b, n) && Once(a) && Once(b)
  {
    assert forall x: nat :: (x in a <==> multiset(a)[x] > 0) && (x in b <==> multiset(b)[x] > 0);
    forall i | 0 <= i < |a| ensures a[i] < n {
      assert a[i] in a && multiset(a)[a[i]] > 0;
    }
    forall i | 0 <= i < |b| ensures b[i] < n {
      assert b[i] in b && multiset(b)[b[i]] > 0;
    }
    forall x: nat ensures multiset(a)[x] <= 1 && multiset(b)[x] <= 1 {
      assert multiset(a)[x] + multiset(b)[x] <= 1;
    }
  }

  lemma InsertedAt(q: seq<nat>, i: nat, x: nat)
    requires i <= |q|
    ensures multiset(q[..i] + [x] + q[i..]) == multiset(q) + multiset{x}
  {
    assert q == q[..i] + q[i..];
  }

  /** The number n enters the first. */
  lemma PartitionMore(a: seq<nat>, b: seq<nat>, n: nat, i: nat)
    requires Partition(a, b, n) && i <= |a|
    ensures Partition(a[..i] + [n] + a[i..], b, n + 1)
  {
    InsertedAt(a, i, n);
  }

  lemma PartitionSwapped(a: seq<nat>, b: seq<nat>, n: nat)
    requires Partition(a, b, n)
    ensures Partition(b, a, n)
  {
  }

  /** The tasks of a list that the new one has not priority over. */
  ghost function Counted(tasks: seq<Task>, list: seq<nat>, deadline: int): set<nat> {
    set x: nat | x < |tasks| && x in list && tasks[x].deadline <= deadline
  }

  /** The two lists together count every such task. */
  lemma CountedTwice(was: seq<Task>, mid: seq<Task>, a: seq<nat>, b: seq<nat>, deadline: int)
    requires Partition(a, b, |was|) && |mid| == |was|
    requires forall x :: 0 <= x < |was| ==> mid[x].deadline == was[x].deadline
    ensures |Counted(was, a, deadline)| + |Counted(mid, b, deadline)|
         == |set x: nat | x < |was| && was[x].deadline <= deadline|
  {
    PartitionOf(a, b, |was|);
    var ca, cb := Counted(was, a, deadline), Counted(mid, b, deadline);
    assert ca !! cb;
    assert ca + cb == set x: nat | x < |was| && was[x].deadline <= deadline;
  }

  /** And lower each other task once. */
  lemma LoweredOnce(was: seq<Task>, mid: seq<Task>, now: seq<Task>, a: seq<nat>, b: seq<nat>, deadline: int)
    requires Partition(a, b, |was|) && |now| == |mid| == |was|
    requires forall x :: 0 <= x < |was| ==> mid[x] == Lowered(was[x], x in a, deadline)
    requires forall x :: 0 <= x < |was| ==> now[x] == Lowered(mid[x], x in b, deadline)
    ensures forall x :: 0 <= x < |was| ==> now[x] == Lowered(was[x], true, deadline)
  {
    PartitionOf(a, b, |was|);
  }

  ghost predicate Below(list: seq<nat>, n: nat) {
    forall i :: 0 <= i < |list| ==> list[i] < n
  }

  class Application {
    var tasks: seq<Task>          // in the order of their creation
    var arrivals: seq<nat>        // the periodic ones, by deadline, in the arrival queue
    var events: seq<nat>          // the event-driven ones, SynchronousTaskList
    var tailPriority: nat

    function Deadlines(): seq<int>
      reads this`tasks
    {
      DeadlinesOf(tasks)
    }

    /** Every task in one of the lists, once. */
    ghost predicate Listed()
      reads this
    {
      Partition(arrivals, events, |tasks|)
    }

    ghost predicate Valid()
      reads this
    {
      && Listed()
      && tailPriority == |tasks| <= 0xFF
      && forall i :: 0 <= i < |tasks| ==> tasks[i].priority == Rank(Deadlines(), i)
    }

    constructor ()
      ensures Valid() && tasks == []
    {
      tasks, arrivals, events, tailPriority := [], [], [], 0;
    }

    /** One list of GetTaskPriority: the tasks of later deadline go down one, the others
        are counted. */
    method Traverse(list: seq<nat>, deadline: int) returns (nbTasks: nat)
      requires Below(list, |tasks|) && Once(list)
      modifies this`tasks
      ensures nbTasks == |Counted(old(tasks), list, deadline)|
      ensures |tasks| == |old(tasks)|
      ensures forall x :: 0 <= x < |tasks| ==>
        tasks[x] == Lowered(old(tasks)[x], x in list, deadline)
    {
      nbTasks := 0;
      ghost var counted: set<nat> := {};
      for i := 0 to |list|
        invariant |tasks| == |old(tasks)|
        invariant counted == Counted(old(tasks), list[..i], deadline)
        invariant nbTasks == |counted|
        invariant forall x :: 0 <= x < |tasks| ==> tasks[x] == Lowered(old(tasks)[x], x in list[..i], deadline)
      {
        var x := list[i];
        OnceAt(list, i);
        if tasks[x].deadline > deadline {
          tasks := tasks[x := tasks[x].(priority := tasks[x].priority + 1)];
        } else {
          nbTasks := nbTasks + 1;
          counted := counted + {x};
        }
      }
      assert list[..|list|] == list;
    }

    /** GetTaskPriority. */
    method GetTaskPriority(deadline: int) returns (nbTasks: nat)
      requires Listed()
      modifies this`tasks, this`tailPriority
      ensures tailPriority == old(tailPriority) + 1 && |tasks| == |old(tasks)|
      ensures forall x :: 0 <= x < |tasks| ==> tasks[x] == Lowered(old(tasks)[x], true, deadline)
      ensures nbTasks == |set x: nat | x < |tasks| && old(tasks)[x].deadline <= deadline|
    {
      ghost var was := tasks;
      PartitionOf(arrivals, events, |was|);
      var periodic := Traverse(arrivals, deadline);
      tailPriority := tailPriority + 1;
      ghost var mid := tasks;
      var driven := Traverse(events, deadline);
      nbTasks := periodic + driven;
      CountedTwice(was, mid, arrivals, events, deadline);
      LoweredOnce(was, mid, tasks, arrivals, events, deadline);
    }

    /** Where a task of a deadline goes in a list in order of deadlines. */
    method FindPlace(list: seq<nat>, deadline: int) returns (i: nat)
      requires Below(list, |tasks|)
      ensures i <= |list| && forall k :: 0 <= k < i ==> tasks[list[k]].deadline < deadline
      ensures i < |list| ==> deadline <= tasks[list[i]].deadline
    {
      i := 0;
      while i < |list| && deadline > tasks[list[i]].deadline
        invariant 0 <= i <= |list| && forall k :: 0 <= k < i ==> tasks[list[k]].deadline < deadline
      {
        i := i + 1;
      }
    }

    method EnlistEvent(n: nat)
      requires Partition(arrivals, events, n)
      modifies this`events
      ensures Partition(arrivals, events, n + 1) && events == [n] + old(events)
    {
      PartitionSwapped(arrivals, events, n);
      PartitionMore(events, arrivals, n, 0);
      assert events[..0] + [n] + events[0..] == [n] + events;
      PartitionSwapped([n] + events, arrivals, n + 1);
      events := [n] + events;
    }

    method EnlistPeriodic(n: nat, i: nat)
      requires Partition(arrivals, events, n) && i <= |arrivals|
      modifies this`arrivals
      ensures Partition(arrivals, events, n + 1) && arrivals == old(arrivals[..i] + [n] + arrivals[i..])
    {
      PartitionMore(arrivals, events, n, i);
      arrivals := arrivals[..i] + [n] + arrivals[i..];
    }

    /** The new task, the last created, enters its list. */
    method Enlist(deadline: int, event: bool)
      requires tasks != [] && Partition(arrivals, events, |tasks| - 1)
      modifies this`arrivals, this`events
      ensures Listed()
    {
      if event {
        EnlistEvent(|tasks| - 1);
      } else {
        PartitionOf(arrivals, events, |tasks| - 1);
        var i := FindPlace(arrivals, deadline);
        EnlistPeriodic(|tasks| - 1, i);
      }
    }

    /** The new task is given its rank, and those it has priority over a new one. */
    method NewPriority(deadline: int) returns (priority: nat)
      requires Valid()
      modifies this`tasks, this`tailPriority
      ensures tailPriority == old(tailPriority) + 1 && Deadlines() == old(Deadlines())
      ensures priority == Rank(old(Deadlines()) + [deadline], |tasks|)
      ensures forall i :: 0 <= i < |tasks| ==> tasks[i].priority == Rank(old(Deadlines()) + [deadline], i)
    {
      ghost var was := Deadlines();
      NewTask(was, deadline);
      priority := GetTaskPriority(deadline);
      ghost var counted := set x: nat | x < |tasks| && old(tasks)[x].deadline <= deadline;
      assert counted == AheadOf(was + [deadline], |was|);
      assert Deadlines() == was;
    }

    /** OSCreateTask and OSCreateSynchronousTask, for the priority. */
    method Create(deadline: int, event: bool) returns (ok: bool)
      requires Valid()
      modifies this
      ensures Valid() && ok == (|old(tasks)| < 0xFF)
      ensures Deadlines() == if ok then old(Deadlines()) + [deadline] else old(Deadlines())
    {
      if tailPriority == 0xFF {
        return false;
      }
      ghost var was := Deadlines();
      var priority := NewPriority(deadline);
      OneMoreTask(tasks, was, deadline, priority);
      tasks := tasks + [Task(deadline, priority)];
      Enlist(deadline, event);
      return true;
    }
  }

  lemma OneMoreTask(tasks: seq<Task>, deadlines: seq<int>, deadline: int, priority: nat)
    requires DeadlinesOf(tasks) == deadlines && priority == Rank(deadlines + [deadline], |tasks|)
    requires forall i :: 0 <= i < |tasks| ==> tasks[i].priority == Rank(deadlines + [deadline], i)
    ensures var longer := tasks + [Task(deadline, priority)];
      && DeadlinesOf(longer) == deadlines + [deadline]
      && forall i :: 0 <= i < |longer| ==> longer[i].priority == Rank(DeadlinesOf(longer), i)
  {
    assert DeadlinesOf(tasks + [Task(deadline, priority)]) == deadlines + [deadline];
  }

  function DeadlinesOf(tasks: seq<Task>): (r: seq<int>)
    ensures |r| == |tasks| && forall i :: 0 <= i < |r| ==> r[i] == tasks[i].deadline
  {
    seq(|tasks|, i requires 0 <= i < |tasks| => tasks[i].deadline)
  }

  function Lowered(t: Task, listed: bool, deadline: int): Task {
    if listed && t.deadline > deadline then t.(priority := t.priority + 1) else t
  }
}
