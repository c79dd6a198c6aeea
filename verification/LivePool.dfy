/** The pool of TCBs of the tasks created and deleted while the kernel runs. The free blocks
    and the requests to the timer handler are two lists through one link, NextLive. */
module LivePool {
  import opened Common

  datatype Live = None | Create | Delete | Free | Asked

  datatype Link = Null | To(block: nat)

  /** A list through the links, from its first block. */
  ghost predicate Chain(head: Link, next: seq<Link>, list: seq<nat>)
    decreases |list|
  {
    if list == [] then head == Null
    else head == To(list[0]) && list[0] < |next| && Chain(next[list[0]], next, list[1..])
  }

  /** Links of blocks elsewhere do not matter. */
  lemma {:induction false} ChainAlike(head: Link, next: seq<Link>, next': seq<Link>, list: seq<nat>)
    requires Chain(head, next, list) && |next'| == |next|
    requires forall i :: 0 <= i < |list| && list[i] < |next| ==> next'[list[i]] == next[list[i]]
    ensures Chain(head, next', list)
    decreases |list|
  {
    if list != [] {
      forall i | 0 <= i < |list[1..]| && list[1..][i] < |next| ensures next'[list[1..][i]] == next[list[1..][i]] {
        assert list[1..][i] == list[i + 1];
      }
      ChainAlike(next[list[0]], next, next', list[1..]);
    }
  }

  lemma ChainPush(head: Link, next: seq<Link>, list: seq<nat>, x: nat)
    requires Chain(head, next, list) && x < |next| && x !in list
    ensures Chain(To(x), next[x := head], [x] + list)
  {
    ChainAlike(head, next, next[x := head], list);
    assert ([x] + list)[1..] == list;
  }

  lemma ChainOther(head: Link, next: seq<Link>, list: seq<nat>, x: nat, to: Link)
    requires Chain(head, next, list) && x < |next| && x !in list
    ensures Chain(head, next[x := to], list)
  {
    ChainAlike(head, next, next[x := to], list);
  }

  class Pool {
    var live: seq<Live>
    var zombie: seq<bool>         // STATE_ZOMBIE: no instance under way
    var next: seq<Link>           // NextLive
    var liveFree: Link
    var liveRequests: Link
    var task: Link                // the requests the handler has yet to serve
    var arrivals: set<nat>        // the blocks in the arrival queue

    // The three lists, and the blocks whose deletion was served
    ghost var free: seq<nat>
    ghost var requests: seq<nat>
    ghost var serving: seq<nat>
    ghost var gone: set<nat>

    ghost predicate Lists()
      reads this
    {
      && |zombie| == |live| && |next| == |live|
      && Chain(liveFree, next, free) && Chain(liveRequests, next, requests) && Chain(task, next, serving)
      && Once(free) && Once(requests) && Once(serving)
      && (forall x :: x in requests ==> x !in serving)
      && (forall x :: x in arrivals ==> x < |live|)
    }

    /** Asked of the handler. */
    ghost predicate Requested(x: nat)
      reads this
    {
      x in requests || x in serving
    }

    /** Each block's state says where it is: never in both lists, and never lost. */
    ghost predicate Placed(x: nat)
      reads this
      requires |live| == |zombie| && x < |live|
    {
      && (x in free ==> !Requested(x) && x !in arrivals && zombie[x] && (live[x].Free? || live[x].None?))
      && (x !in free ==>
            match live[x]
            case None => !Requested(x) && x in arrivals
            case Create => Requested(x) && x !in arrivals && zombie[x]
            case Asked => Requested(x) && x in arrivals
            case Delete => !Requested(x) && x in arrivals
            case Free => false)
      && (x in gone ==> x in free || live[x].Delete?)
      && (live[x].Delete? && x !in free ==> x in gone)
    }

    ghost predicate Valid()
      reads this
    {
      Lists() && forall x: nat :: x < |live| ==> Placed(x)
    }

    /** InitializeLive: the blocks, none handed out, keep the LIVE_NONE they start with. */
    constructor (n: nat)
      ensures Valid() && |live| == n && |free| == n
    {
      live, zombie, next := seq(n, _ => Live.None), seq(n, _ => true), seq(n, _ => Null);
      liveFree, liveRequests, task, arrivals := Null, Null, Null, {};
      free, requests, serving, gone := [], [], [], {};
      new;
      var i := 0;
      while i < n
        invariant 0 <= i <= n && Lists()
        invariant live == seq(n, _ => Live.None) && zombie == seq(n, _ => true) && |next| == n
        invariant requests == [] && liveRequests == Null && serving == [] && task == Null
        invariant arrivals == {} && gone == {}
        invariant |free| == i && forall x: nat :: x in free <==> x < i
      {
        PutFree(i);
        i := i + 1;
      }
    }

    /** A block in no list is put in the pool. */
    method PutFree(x: nat)
      requires Lists() && x < |live| && x !in free && !Requested(x)
      modifies this`next, this`liveFree, this`free
      ensures Lists() && free == [x] + old(free)
    {
      ChainPush(liveFree, next, free, x);
      ChainOther(liveRequests, next, requests, x, liveFree);
      ChainOther(task, next, serving, x, liveFree);
      next := next[x := liveFree];
      liveFree := To(x);
      free := [x] + free;
    }

    /** A block in no list is put in the requests. */
    method Request(x: nat)
      requires Lists() && x < |live| && x !in free && !Requested(x)
      modifies this`next, this`liveRequests, this`requests
      ensures Lists() && requests == [x] + old(requests)
    {
      ChainPush(liveRequests, next, requests, x);
      ChainOther(liveFree, next, free, x, liveRequests);
      ChainOther(task, next, serving, x, liveRequests);
      next := next[x := liveRequests];
      liveRequests := To(x);
      requests := [x] + requests;
    }

    /** The first block of the pool. */
    method TakeFree() returns (x: nat)
      requires Valid() && free != []
      modifies this`liveFree, this`free
      ensures Lists() && old(free) == [x] + free && x !in free && x < |live| && !Requested(x) && x !in arrivals
      ensures forall y: nat :: y < |live| && y != x ==> Placed(y)
    {
      OnceTail(free);
      x := liveFree.block;
      assert Placed(x);
      liveFree := next[x];
      assert free == [x] + free[1..];
      free := free[1..];
      forall y: nat | y < |live| && y != x ensures Placed(y) {
        assert old(Placed(y));
      }
    }

    /** OSCreateTaskLive: a block of the pool, its release asked for. */
    method CreateTask() returns (handle: Link)
      requires Valid()
      modifies this`live, this`zombie, this`next, this`liveFree, this`liveRequests, this`free, this`requests, this`gone
      ensures Valid() && |live| == |old(live)|
      ensures handle == Null <==> old(free) == []
      ensures handle.To? ==>
        && old(free) == [handle.block] + free && requests == [handle.block] + old(requests)
        && live == old(live)[handle.block := Create] && gone == old(gone) - {handle.block}
      ensures handle == Null ==>
        requests == old(requests) && free == old(free) && live == old(live) && gone == old(gone)
    {
      if liveFree == Null {
        return Null;
      }
      var x := TakeFree();
      SetCreate(x);
      return To(x);
    }

    /** A block just taken from the pool is asked for. */
    method SetCreate(x: nat)
      requires Lists() && x < |live| && x !in free && !Requested(x) && x !in arrivals
      requires forall y: nat :: y < |live| && y != x ==> Placed(y)
      modifies this`live, this`zombie, this`next, this`liveRequests, this`requests, this`gone
      ensures Valid() && live == old(live)[x := Create] && requests == [x] + old(requests) && gone == old(gone) - {x}
    {
      zombie := zombie[x := true];
      live := live[x := Create];
      gone := gone - {x};
      Request(x);
      forall y: nat | y < |live| ensures Placed(y) {
        assert y != x ==> old(Placed(y));
      }
    }

    /** OSDeleteTaskLive, by a handle that was handed out: the deletion is asked for, unless it
        already was or the task is not there. */
    method DeleteTask(x: nat) returns (asked: bool)
      requires Valid() && (x < |live| && x in free ==> live[x].Free?)
      modifies this`live, this`next, this`liveRequests, this`requests
      ensures Valid() && |live| == |old(live)|
      ensures asked == (x < |live| && old(live)[x].None?)
      ensures live == if asked then old(live)[x := Asked] else old(live)
      ensures requests == if asked then [x] + old(requests) else old(requests)
    {
      asked := false;
      if x >= |live| {
        return;
      }
      assert Placed(x);
      if live[x].None? {
        live := live[x := Asked];
        Request(x);
        asked := true;
        forall y: nat | y < |live| ensures Placed(y) {
          assert old(Placed(y));
        }
      }
    }

    /** FreeLive: a block in no list goes back to the pool. */
    method FreeLive(x: nat)
      requires Lists() && x < |live| && x !in free && !Requested(x) && x !in arrivals && zombie[x]
      requires forall y: nat :: y < |live| && y != x ==> Placed(y)
      modifies this`live, this`next, this`liveFree, this`free, this`gone
      ensures Valid() && live == old(live)[x := Free] && free == [x] + old(free) && gone == old(gone) + {x}
    {
      live := live[x := Free];
      PutFree(x);
      gone := gone + {x};
      forall y: nat | y < |live| ensures Placed(y) {
        assert y != x ==> old(Placed(y));
      }
    }

    /** The next request the handler serves. */
    method NextRequest() returns (x: nat)
      requires Lists() && task.To?
      modifies this`task, this`serving
      ensures Lists() && x == old(task).block && x < |live| && old(serving) == [x] + serving && x !in serving
    {
      OnceTail(serving);
      x := task.block;
      assert serving == [x] + serving[1..];
      serving := serving[1..];
      task := next[x];
    }

    /** A task created arrives. */
    method Admit(x: nat)
      requires Lists() && x < |live| && x !in free && !Requested(x) && x !in gone
      requires forall y: nat :: y < |live| && y != x ==> Placed(y)
      modifies this`live, this`arrivals
      ensures Valid() && live == old(live)[x := Live.None] && arrivals == old(arrivals) + {x}
    {
      live := live[x := Live.None];
      arrivals := arrivals + {x};
      forall y: nat | y < |live| ensures Placed(y) {
        assert y != x ==> old(Placed(y));
      }
    }

    /** A task deleted with an instance under way keeps it. */
    method MarkDeleted(x: nat)
      requires Lists() && x < |live| && x !in free && !Requested(x) && x in arrivals
      requires forall y: nat :: y < |live| && y != x ==> Placed(y)
      modifies this`live, this`gone
      ensures Valid() && live == old(live)[x := Delete] && gone == old(gone) + {x}
    {
      live := live[x := Delete];
      gone := gone + {x};
      forall y: nat | y < |live| ensures Placed(y) {
        assert y != x ==> old(Placed(y));
      }
    }

    /** A task deleted between two instances leaves for the pool. */
    method Withdraw(x: nat)
      requires Lists() && x < |live| && x !in free && !Requested(x) && x in arrivals && zombie[x]
      requires forall y: nat :: y < |live| && y != x ==> Placed(y)
      modifies this`live, this`next, this`liveFree, this`free, this`gone, this`arrivals
      ensures Valid() && live == old(live)[x := Free] && gone == old(gone) + {x} && arrivals == old(arrivals) - {x}
    {
      arrivals := arrivals - {x};
      forall y: nat | y < |live| && y != x ensures Placed(y) {
        assert old(Placed(y));
      }
      FreeLive(x);
    }

    /** One request served: a task created arrives; one deleted between two instances leaves
        for the pool; one deleted with an instance under way keeps it to its end. */
    method ServeOne()
      requires Valid() && task.To?
      modifies this
      ensures Valid() && |live| == |old(live)| && requests == old(requests) && zombie == old(zombie)
      ensures old(serving) == [old(task).block] + serving
      ensures var x := old(task).block;
        live == old(live)[x := if old(live)[x].Create? then Live.None else if zombie[x] then Free else Delete]
      ensures var x := old(task).block;
        if old(live)[x].Create? then arrivals == old(arrivals) + {x} && gone == old(gone)
        else gone == old(gone) + {x} && arrivals == old(arrivals) - if zombie[x] then {x} else {}
    {
      assert serving[0] in serving && Placed(serving[0]);
      var x := NextRequest();
      forall y: nat | y < |live| && y != x ensures Placed(y) {
        assert old(Placed(y));
      }
      if live[x].Create? {
        Admit(x);
      } else if zombie[x] {
        Withdraw(x);
      } else {
        MarkDeleted(x);
      }
    }

    /** The handler takes the requests over; those made from then on wait for the next time. */
    method TakeRequests()
      requires Valid() && task == Null
      modifies this`task, this`liveRequests, this`requests, this`serving
      ensures Valid() && requests == [] && serving == old(requests)
    {
      assert serving == [];
      task, serving := liveRequests, requests;
      liveRequests, requests := Null, [];
      forall y: nat | y < |live| ensures Placed(y) {
        assert old(Placed(y));
      }
    }

    /** ServeLiveRequests, nothing coming between two of its turns: each task created arrives,
        each deletion asked for is served, and the other blocks are left alone. */
    method ServeLiveRequests()
      requires Valid() && task == Null
      modifies this
      ensures Valid() && task == Null && requests == [] && |live| == |old(live)| && zombie == old(zombie)
      ensures old(gone) <= gone
      ensures forall y :: 0 <= y < |live| ==>
        live[y] == (if y in old(requests) then Served(old(live)[y], zombie[y]) else old(live)[y])
        && (y in arrivals <==> if y in old(requests) then Arrives(old(live)[y], zombie[y]) else y in old(arrivals))
      ensures forall y :: y in old(requests) && y < |live| && old(live)[y].Asked? ==> y in gone
    {
      TakeRequests();
      ghost var done: set<nat> := {};
      while task.To?
        invariant Valid() && requests == [] && |live| == |old(live)| && old(gone) <= gone && zombie == old(zombie)
        invariant forall y :: y in old(requests) <==> y in serving || y in done
        invariant forall y :: y in serving ==> y !in done
        invariant forall y :: 0 <= y < |live| ==> ServedSo(old(live)[y], y in done, y in old(arrivals), y)
        invariant forall y :: y in done && y < |live| && old(live)[y].Asked? ==> y in gone
        decreases |serving|
      {
        ghost var was := serving;
        assert was[0] in was && Placed(was[0]);
        ServeOne();
        OnceTail(was);
        done := done + {was[0]};
      }
      assert serving == [];
    }

    /** A block as the requests served so far leave it. */
    ghost predicate ServedSo(was: Live, done: bool, arrived: bool, y: nat)
      reads this
      requires |live| == |zombie| && y < |live|
    {
      && live[y] == (if done then Served(was, zombie[y]) else was)
      && (y in arrivals <==> if done then Arrives(was, zombie[y]) else arrived)
    }

    /** The timer handler at an arrival: a task whose deletion was served is never released
        again; unless an instance of it is under way its block goes back to the pool. */
    method Arrive(x: nat) returns (released: bool)
      requires Valid() && x in arrivals
      modifies this
      ensures Valid() && |live| == |old(live)|
      ensures released == (old(zombie)[x] && !old(live)[x].Delete?)
      ensures old(gone) <= gone
      ensures released ==> x !in old(gone) && live == old(live) && zombie == old(zombie)[x := false]
      ensures !released ==>
        && zombie == old(zombie)
        && live == (if zombie[x] then old(live)[x := Free] else old(live))
        && arrivals == if zombie[x] then old(arrivals) - {x} else old(arrivals)
    {
      assert Placed(x);
      released := false;
      if zombie[x] && live[x].Delete? {
        Withdraw(x);
      } else if zombie[x] {
        zombie := zombie[x := false];
        released := true;
        forall y: nat | y < |live| ensures Placed(y) {
          assert old(Placed(y));
        }
      }
    }

    /** OSEndTask. */
    method EndTask(x: nat)
      requires Valid() && x < |live| && !zombie[x]
      modifies this`zombie
      ensures Valid() && zombie == old(zombie)[x := true]
    {
      zombie := zombie[x := true];
      forall y: nat | y < |live| ensures Placed(y) {
        assert old(Placed(y));
      }
    }

    /** One call, by the application or the handler; one that cannot be made is none. The
        handler's requests are served one at a time, others made between two of them. */
    method Do(c: Call) returns (o: Outcome)
      requires Valid()
      modifies this
      ensures Valid() && |live| == |old(live)|
      ensures forall x :: o == Deleted(x) ==> x in gone
      ensures forall x :: o == Released(x) ==> x !in old(gone)
      ensures forall x :: x in old(gone) && o != Handed(x) ==> x in gone
      ensures c.Serving? && old(task).To? ==>
        var x := old(task).block;
        x < |old(live)| && o == if old(live)[x].Create? then Other else Deleted(x)
      ensures c.Arrival? && c.block in old(arrivals) && c.block < |old(live)| ==>
        (o == Released(c.block) <==> old(zombie)[c.block] && !old(live)[c.block].Delete?)
    {
      o := Other;
      match c
      case Creation =>
        var handle := CreateTask();
        if handle.To? {
          o := Handed(handle.block);
        }
      case Deletion(x) =>
        if x >= |live| || !live[x].None? || x in arrivals {
          assert x < |live| ==> Placed(x);
          var _ := DeleteTask(x);
        }
      case Taking =>
        if task == Null {
          TakeRequests();
        }
      case Serving =>
        if task.To? {
          var x := task.block;
          assert serving[0] == x && x in serving && Placed(x);
          o := if live[x].Create? then Other else Deleted(x);
          ServeOne();
        }
      case Arrival(x) =>
        if x in arrivals {
          var released := Arrive(x);
          o := if released then Released(x) else Other;
        }
      case End(x) =>
        if x < |live| && !zombie[x] {
          EndTask(x);
        }
    }

    /** Any calls in any order: once a deletion is served, the task is released again only
        after its block has been handed out again. */
    method DoAll(calls: seq<Call>) returns (outcomes: seq<Outcome>)
      requires Valid()
      modifies this
      ensures Valid() && |live| == |old(live)| && |outcomes| == |calls|
      ensures NeverAgain(outcomes)
      ensures forall x, k :: x in old(gone) && 0 <= k < |outcomes| && outcomes[k] == Released(x) ==>
        HandedWithin(outcomes, x, 0, k)
    {
      outcomes := [];
      for i := 0 to |calls|
        invariant Valid() && |live| == |old(live)| && |outcomes| == i
        invariant NeverAgain(outcomes)
        invariant forall x, k :: x in old(gone) && 0 <= k < i && outcomes[k] == Released(x) ==>
          HandedWithin(outcomes, x, 0, k)
        invariant forall x :: x in old(gone) && x !in gone ==> HandedWithin(outcomes, x, 0, i)
        invariant forall x, j :: 0 <= j < i && outcomes[j] == Deleted(x) && x !in gone ==>
          HandedWithin(outcomes, x, j, i)
      {
        ghost var was, gone0 := outcomes, gone;
        var o := Do(calls[i]);
        outcomes := outcomes + [o];
        forall x, j: nat, k: nat | j <= k <= i && HandedWithin(was, x, j, k)
          ensures HandedWithin(outcomes, x, j, k) && HandedWithin(outcomes, x, j, i + 1)
        {
          var n :| j <= n < k && was[n] == Handed(x);
          assert outcomes[n] == Handed(x);
        }
        if o.Handed? {
          ghost var end := i + 1;
          forall j: nat | j < end ensures HandedWithin(outcomes, o.block, j, end) {
            assert outcomes[i] == Handed(o.block);
          }
        }
      }
    }
  }

  /** What the service of its request makes of a block, and whether it is in the arrival queue
      then. */
  function Served(was: Live, zombie: bool): Live {
    if was.Create? then Live.None else if zombie then Free else Delete
  }

  predicate Arrives(was: Live, zombie: bool) {
    was.Create? || !zombie
  }

  datatype Call = Creation | Deletion(block: nat) | Taking | Serving | Arrival(block: nat) | End(block: nat)

  /** What a call did: the block CreateTask handed out, the task whose deletion was served, the
      one released. */
  datatype Outcome = Handed(block: nat) | Deleted(block: nat) | Released(block: nat) | Other

  predicate HandedWithin(outcomes: seq<Outcome>, x: nat, j: nat, k: nat)
    requires j <= k <= |outcomes|
  {
    exists n :: j <= n < k && outcomes[n] == Handed(x)
  }

  /** Between the service of its deletion and a release of a task, its block was handed out. */
  ghost predicate NeverAgain(outcomes: seq<Outcome>) {
    forall x, j, k :: 0 <= j < k < |outcomes| && outcomes[j] == Deleted(x) && outcomes[k] == Released(x) ==>
      HandedWithin(outcomes, x, j, k)
  }
}
