/** src/luv_dns.c's socket table: the callbacks, on a red-black tree, each performing one step of the
    state machine in ResolverModel. */
module Resolver {
  import opened Ordering
  import opened Options
  import opened RedBlackTheory
  import opened RedBlackLinks
  import opened RedBlackTable
  import opened ResolverModel
  import opened ResolverLaws
  import opened Unfolding
  import RedBlackRemove

  /** A task is identified by its tree node, which carries the socket as its key. */
  type Task = Node<int>

  /** cmp_ares_tasks, on the sockets of the two tasks. */
  function CompareSockets(a: int, b: int): int {
    if a < b then -1 else if a > b then 1 else 0
  }

  lemma CompareSocketsOrders()
    ensures WeakOrder(CompareSockets)
    ensures forall a, b :: CompareSockets(a, b) == 0 <==> a == b
  {
    var cmp := CompareSockets;
    forall a, b ensures cmp(a, b) < 0 <==> cmp(b, a) > 0 {
      assert cmp(a, b) == CompareSockets(a, b) && cmp(b, a) == CompareSockets(b, a);
    }
  }

  ghost predicate Agree(nodes: set<Task>, closing: set<Task>, masks: map<Task, Mask>, entries: map<int, Entry<Task>>) {
    forall k {:trigger UnfoldTasks(k)} :: UnfoldTasks(k) ==>
      && nodes !! closing && masks.Keys == nodes + closing
      && (forall t :: t in nodes ==> t.key in entries && entries[t.key] == Entry(t, masks[t]))
      && (forall s :: s in entries ==> entries[s].task in nodes && entries[s].task.key == s)
  }

  lemma AgreeLookup(nodes: set<Task>, closing: set<Task>, masks: map<Task, Mask>, entries: map<int, Entry<Task>>,
                    sock: int)
    requires Agree(nodes, closing, masks, entries)
    ensures sock in entries ==> entries[sock].task in nodes && entries[sock].task.key == sock
    ensures forall t :: t in nodes && t.key == sock ==> sock in entries && entries[sock].task == t
    ensures nodes == {} <==> entries == map[]
    ensures forall s :: s in entries ==> entries[s].task in nodes
    ensures masks.Keys == nodes + closing && nodes !! closing
  {
    assert UnfoldTasks(0);
    forall s | s in entries ensures nodes != {} { assert entries[s].task in nodes; }
    forall t | t in nodes ensures entries != map[] { assert t.key in entries; }
  }

  lemma AgreeInsert(nodes: set<Task>, closing: set<Task>, masks: map<Task, Mask>, entries: map<int, Entry<Task>>,
                    task: Task, mask: Mask)
    requires Agree(nodes, closing, masks, entries) && task !in closing
    requires task.key in entries ==> task in nodes
    requires task.key !in entries ==> task !in nodes
    ensures Agree(nodes + {task}, closing, masks[task := mask], entries[task.key := Entry(task, mask)])
  {
    assert UnfoldTasks(0);
  }

  lemma AgreeRemove(nodes: set<Task>, closing: set<Task>, masks: map<Task, Mask>, entries: map<int, Entry<Task>>,
                    task: Task)
    requires Agree(nodes, closing, masks, entries) && task in nodes
    ensures Agree(nodes - {task}, closing + {task}, masks, entries - {task.key})
    ensures task.key in entries && entries[task.key].task == task
  {
    assert UnfoldTasks(0);
    assert nodes - {task} + (closing + {task}) == nodes + closing;
  }

  lemma AgreeFree(nodes: set<Task>, closing: set<Task>, masks: map<Task, Mask>, entries: map<int, Entry<Task>>,
                  task: Task)
    requires Agree(nodes, closing, masks, entries) && task in closing
    ensures Agree(nodes, closing - {task}, masks - {task}, entries)
  {
    assert UnfoldTasks(0);
    assert (masks - {task}).Keys == nodes + (closing - {task});
  }

  class Resolver {
    const tasks: Head<int>           // ares_tasks
    var timerActive: bool            // ares_timer
    var masks: map<Task, Mask>       // what the poll watcher of each task not yet freed is started with
    var closing: set<Task>
    ghost var entries: map<int, Entry<Task>>
    ghost var handedOut: nat
    ghost var freed: nat

    ghost function Abs(): State<Task>
      reads this
    {
      State(entries, closing, timerActive, handedOut, freed)
    }

    ghost predicate Valid()
      reads this, tasks, tasks.tree.Nodes()
    {
      Tied() && Inv(Abs())
    }

    /** The tree and the maps hold what `entries` and `closing` say. */
    ghost predicate Tied()
      reads this, tasks, tasks.tree.Nodes()
    {
      TreeValid() && Agree(tasks.tree.Nodes(), closing, masks, entries)
    }

    constructor ()
      ensures Valid() && Abs() == Initial() && fresh(tasks) && tasks.tree == Leaf
    {
      CompareSocketsOrders();
      tasks := new Head(CompareSockets);
      timerActive, masks, closing := false, map[], {};
      entries, handedOut, freed := map[], 0, 0;
      new;
      assert tasks.tree.RB(0);
      InitialInv<Task>();
    }

    // ---- the red-black tree, as a set of tasks with distinct sockets

    ghost predicate TreeValid()
      reads tasks, tasks.tree.Nodes()
    {
      forall k {:trigger Unfold(k)} :: Unfold(k) ==> RedBlackTable.Valid(tasks) && tasks.cmp == CompareSockets
    }

    /** RB_FIND with a lookup task. */
    method TreeFind(sock: int) returns (task: Node?<int>)
      requires TreeValid()
      ensures TreeValid() && tasks.tree == old(tasks.tree)
      ensures task == null ==> forall t :: t in tasks.tree.Nodes() ==> t.key != sock
      ensures task != null ==> task in tasks.tree.Nodes() && task.key == sock
    {
      assert Unfold(0);
      assert allocated(tasks.tree.Nodes());
      var found, _ := RedBlackTable.Find(tasks, sock);
      task := found;
      CompareSocketsOrders();
      FoundMeans(tasks.cmp, Contents(tasks), sock);
      if task != null { InorderNodes(tasks.tree, task); }
      forall t | t in tasks.tree.Nodes() ensures task == null ==> t.key != sock { InorderNodes(tasks.tree, t); }
    }

    /** RB_INSERT. */
    method TreeInsert(task: Task)
      requires TreeValid() && task !in tasks.tree.Nodes() && forall t :: t in tasks.tree.Nodes() ==> t.key != task.key
      modifies tasks, tasks.tree.Nodes(), task
      ensures TreeValid() && tasks.tree.Nodes() == old(tasks.tree.Nodes()) + {task}
    {
      assert Unfold(0);
      CompareSocketsOrders();
      FoundMeans(tasks.cmp, Contents(tasks), task.key);
      forall t | t in Contents(tasks) ensures t.key != task.key { InorderNodes(tasks.tree, t); }
      var _, _, _ := RedBlackTable.Insert(tasks, task);
    }

    /** RB_REMOVE. */
    method TreeRemove(task: Task)
      requires TreeValid() && task in tasks.tree.Nodes()
      modifies tasks, tasks.tree.Nodes()
      ensures TreeValid() && tasks.tree.Nodes() == old(tasks.tree.Nodes()) - {task}
    {
      assert Unfold(0);
      var _, _ := RedBlackRemove.Remove(tasks, task);
    }

    /** RB_EMPTY. */
    method TreeEmpty() returns (r: bool)
      requires TreeValid()
      ensures TreeValid() && tasks.tree == old(tasks.tree) && (r <==> tasks.tree.Nodes() == {})
    {
      assert Unfold(0);
      Look(tasks, Top, tasks.tree);
      r := tasks.root == null;
    }

    // ---- the callbacks

    /** ares_sockstate_cb. `creates` says whether malloc and uv_poll_init_socket succeed, should a task be
        needed; `made` is that task. Not ok: the assert on line 169 has failed. */
    method SockState(sock: int, read: bool, write: bool, creates: bool) returns (ok: bool, ghost made: Option<Task>)
      requires Valid()
      modifies this, tasks, tasks.tree.Nodes()
      ensures Valid()
      ensures forall t :: t in tasks.tree.Nodes() ==> t in old(tasks.tree.Nodes()) || fresh(t)
      ensures Legal(old(Abs()), ResolverModel.SockState(sock, read, write, made))
      ensures made.Some? ==> creates && made.value.key == sock
      ensures (read || write) && sock !in old(entries) && creates ==> made.Some?
      ensures freed == old(freed) && old(masks).Keys <= masks.Keys
      ensures if ok then Step(old(Abs()), ResolverModel.SockState(sock, read, write, made)) == Next(Abs())
        else
          && Step(old(Abs()), ResolverModel.SockState(sock, read, write, made)) == Abort(CLOSED_ASSERT)
          && Abs() == old(Abs())
    {
      NonEmptyHasTimer(Abs());
      ok, made := true, None;
      if read || write {
        made := Open(sock, Mask(read, write), creates);
      } else {
        ok := Close(sock);
      }
      StepInv(old(Abs()), ResolverModel.SockState(sock, read, write, made));
    }

    /** Lines 138-164. */
    method Open(sock: int, mask: Mask, creates: bool) returns (ghost made: Option<Task>)
      requires Tied() && (entries != map[] ==> timerActive)
      modifies this, tasks, tasks.tree.Nodes()
      ensures Tied()
      ensures forall t :: t in tasks.tree.Nodes() ==> t in old(tasks.tree.Nodes()) || fresh(t)
      ensures made.Some? ==> creates && made.value.key == sock && !InUse(old(Abs()), made.value)
      ensures sock !in old(entries) && creates ==> made.Some?
      ensures Opened(old(Abs()), sock, mask, made) == Next(Abs())
      ensures timerActive && closing == old(closing) && freed == old(freed)
      ensures made.None? <==> sock in old(entries) || !creates
      ensures entries == match made
        case Some(task) => old(entries)[sock := Entry(task, mask)]
        case None => if sock in old(entries) then old(entries)[sock := Entry(old(entries)[sock].task, mask)]
            else old(entries)
      ensures sock in entries ==> masks == old(masks)[entries[sock].task := mask]
      ensures sock !in entries ==> masks == old(masks)
    {
      made := None;
      var task := FindTask(sock);
      if task == null {
        StartTimer();
        if !creates {
          return;
        }
        task := InsertTask(sock);
        made := Some(task);
      }
      StartPoll(task, mask);
      assert entries == old(entries)[sock := Entry(task, mask)];
    }

    /** Lines 142-146. */
    method StartTimer()
      requires Tied() && (entries != map[] ==> timerActive)
      modifies this`timerActive
      ensures Tied() && timerActive && tasks.tree == old(tasks.tree)
    {
      if !timerActive {
        var empty := NoTasks();
        assert empty;  // the assert on line 144
        timerActive := true;
      }
    }

    /** Lines 165-179. Not ok: the assert on line 169 has failed. */
    method Close(sock: int) returns (ok: bool)
      requires Tied() && (entries != map[] ==> timerActive)
      modifies this, tasks, tasks.tree.Nodes()
      ensures Tied() && tasks.tree.Nodes() <= old(tasks.tree.Nodes())
      ensures Closed(old(Abs()), sock) == if ok then Next(Abs()) else Abort(CLOSED_ASSERT)
      ensures !ok ==> Abs() == old(Abs())
      ensures masks == old(masks) && freed == old(freed) && (ok <==> sock in old(entries))
      ensures ok ==>
        && closing == old(closing) + {old(entries)[sock].task}
        && entries == old(entries) - {sock} && (timerActive <==> entries != map[])
    {
      var task := FindTask(sock);
      ok := task != null;
      if ok {
        RemoveTask(task);
        var empty := NoTasks();
        if empty {
          timerActive := false;
        }
      }
    }

    method FindTask(sock: int) returns (task: Node?<int>)
      requires Tied()
      ensures Tied() && Abs() == old(Abs()) && tasks.tree == old(tasks.tree)
      ensures task == null <==> sock !in entries
      ensures task != null ==> task in tasks.tree.Nodes() && task.key == sock && task == entries[sock].task
    {
      AgreeLookup(tasks.tree.Nodes(), closing, masks, entries, sock);
      task := TreeFind(sock);
    }

    method NoTasks() returns (r: bool)
      requires Tied()
      ensures Tied() && Abs() == old(Abs()) && tasks.tree == old(tasks.tree)
      ensures r <==> entries == map[]
    {
      AgreeLookup(tasks.tree.Nodes(), closing, masks, entries, 0);
      r := TreeEmpty();
    }

    /** ares_task_create and RB_INSERT. */
    method InsertTask(sock: int) returns (task: Task)
      requires Tied() && sock !in entries
      modifies this, tasks, tasks.tree.Nodes()
      ensures Tied() && fresh(task) && task.key == sock && tasks.tree.Nodes() == old(tasks.tree.Nodes()) + {task}
      ensures !InUse(old(Abs()), task)
      ensures Abs() == old(Abs()).(table := entries, handedOut := old(handedOut) + 1)
      ensures entries == old(entries)[sock := Entry(task, Mask(false, false))]
      ensures masks == old(masks)[task := Mask(false, false)]
    {
      assert allocated(tasks.tree.Nodes());
      AgreeLookup(tasks.tree.Nodes(), closing, masks, entries, sock);
      task := new Node(sock);
      AgreeInsert(tasks.tree.Nodes(), closing, masks, entries, task, Mask(false, false));
      TreeInsert(task);
      Enter(task);
    }

    /** The poll watcher of a new task is not started yet. */
    method Enter(task: Task)
      requires TreeValid()
      requires Agree(tasks.tree.Nodes(), closing, masks[task := Mask(false, false)],
          entries[task.key := Entry(task, Mask(false, false))])
      modifies this
      ensures Tied()
      ensures Abs() == old(Abs()).(table := entries, handedOut := old(handedOut) + 1)
      ensures entries == old(entries)[task.key := Entry(task, Mask(false, false))]
      ensures masks == old(masks)[task := Mask(false, false)]
    {
      masks := masks[task := Mask(false, false)];
      entries := entries[task.key := Entry(task, Mask(false, false))];
      handedOut := handedOut + 1;
    }

    /** uv_poll_start. */
    method StartPoll(task: Task, mask: Mask)
      requires Tied() && task in tasks.tree.Nodes()
      modifies this
      ensures Tied() && Abs() == old(Abs()).(table := old(entries)[task.key := Entry(task, mask)])
      ensures masks == old(masks)[task := mask]
    {
      AgreeLookup(tasks.tree.Nodes(), closing, masks, entries, task.key);
      AgreeInsert(tasks.tree.Nodes(), closing, masks, entries, task, mask);
      assert tasks.tree.Nodes() + {task} == tasks.tree.Nodes();
      masks := masks[task := mask];
      entries := entries[task.key := Entry(task, mask)];
    }

    /** RB_REMOVE and uv_close. */
    method RemoveTask(task: Task)
      requires Tied() && task in tasks.tree.Nodes()
      modifies this, tasks, tasks.tree.Nodes()
      ensures Tied() && tasks.tree.Nodes() == old(tasks.tree.Nodes()) - {task}
      ensures Abs() == old(Abs()).(table := old(entries) - {task.key}, closing := old(closing) + {task})
      ensures masks == old(masks)
    {
      AgreeRemove(tasks.tree.Nodes(), closing, masks, entries, task);
      TreeRemove(task);
      closing := closing + {task};
      entries := entries - {task.key};
    }

    /** luv_ares_poll_cb, up to the call into c-ares: uv_timer_again leaves a repeating timer active. What
        c-ares does in turn arrives as SockState calls. */
    method Poll(task: Task)
      requires Valid() && task in tasks.tree.Nodes()
      modifies this
      ensures Valid() && Step(old(Abs()), ResolverModel.Poll(task.key)) == Next(Abs())
    {
      NonEmptyHasTimer(Abs());
      AgreeLookup(tasks.tree.Nodes(), closing, masks, entries, task.key);
      ghost var st := Abs();
      timerActive := true;
      assert Abs() == st;
    }

    /** luv_ares_timeout. Not ok: the assert on line 73 has failed. */
    method Timeout() returns (ok: bool)
      requires Valid() && timerActive
      ensures Valid()
      ensures Step(Abs(), ResolverModel.Timeout) == if ok then Next(Abs()) else Abort(TIMEOUT_ASSERT)
    {
      var empty := NoTasks();
      ok := !empty;
    }

    /** ares_poll_close_cb. */
    method PollClosed(task: Task)
      requires Valid() && task in closing
      modifies this
      ensures Valid() && Step(old(Abs()), ResolverModel.PollClosed(task)) == Next(Abs())
      ensures masks == old(masks) - {task} && closing == old(closing) - {task}
      ensures freed == old(freed) + 1 && entries == old(entries) && timerActive == old(timerActive)
    {
      StepInv(Abs(), ResolverModel.PollClosed(task));
      ghost var next := Step(Abs(), ResolverModel.PollClosed(task)).state;
      FreeTask(task);
      assert Abs() == next;
    }

    method FreeTask(task: Task)
      requires Tied() && task in closing
      modifies this
      ensures Tied() && masks == old(masks) - {task}
      ensures Abs() == old(Abs()).(closing := old(closing) - {task}, freed := old(freed) + 1)
    {
      AgreeFree(tasks.tree.Nodes(), closing, masks, entries, task);
      masks := masks - {task};
      closing := closing - {task};
      freed := freed + 1;
    }
  }

  /** Where the machine is after a step or a run: in this state, or stopped at a line. */
  ghost predicate Reached(r: Resolver, result: Result<Task>, stop: Option<nat>)
    reads r
  {
    result == match stop
      case None => Next(r.Abs())
      case Some(line) => Abort(line)
  }

  /** One input; `stop` is the line of the assert that fails, if one does. */
  method Deliver(r: Resolver, input: Input) returns (ghost e: Option<Event<Task>>, stop: Option<nat>)
    requires r.Valid()
    modifies r, r.tasks, r.tasks.tree.Nodes()
    ensures r.Valid() && forall t :: t in r.tasks.tree.Nodes() ==> t in old(r.tasks.tree.Nodes()) || fresh(t)
    ensures Gives(old(r.Abs()), input, e)
    ensures e.None? ==> stop == None && r.Abs() == old(r.Abs())
    ensures e.Some? ==> Legal(old(r.Abs()), e.value) && Reached(r, Step(old(r.Abs()), e.value), stop)
  {
    e, stop := None, None;
    match input
    case SocketIn(sock, read, write, creates) =>
      ghost var made;
      var ok;
      ok, made := r.SockState(sock, read, write, creates);
      stop := if ok then None else Some(CLOSED_ASSERT);
      e := Some(ResolverModel.SockState(sock, read, write, made));
    case PollIn(sock) =>
      var task := r.FindTask(sock);
      if task != null {
        r.Poll(task);
        e := Some(ResolverModel.Poll(sock));
      }
    case TickIn =>
      if r.timerActive {
        var ok := r.Timeout();
        stop := if ok then None else Some(TIMEOUT_ASSERT);
        e := Some(ResolverModel.Timeout);
      }
    case ClosedIn =>
      if r.closing != {} {
        var task :| task in r.closing;
        e := Some(ResolverModel.PollClosed(task));
        r.PollClosed(task);
      }
  }

  /** Whatever reaches the resolver, in whatever order, what it does is the run of the state machine that
      the inputs make: it ends in the state reached, or in the first assert that fails. */
  method Drive(r: Resolver, inputs: seq<Input>) returns (ghost trace: seq<Event<Task>>, stop: Option<nat>)
    requires r.Valid()
    modifies r, r.tasks, r.tasks.tree.Nodes()
    ensures r.Valid() && Follows(old(r.Abs()), inputs, trace) && LegalRun(old(r.Abs()), trace)
    ensures Reached(r, Run(old(r.Abs()), trace), stop)
    decreases |inputs|
  {
    if inputs == [] {
      return [], None;
    }
    ghost var e, rest;
    e, stop := Deliver(r, inputs[0]);
    if stop.Some? {
      return [e.value], stop;
    }
    rest, stop := Drive(r, inputs[1..]);
    trace := if e.None? then rest else [e.value] + rest;
  }

  /** From the start the inputs decide everything: the sockets in the table and what each is polled for,
      whether the timer runs, how many tasks are closing and freed, and at which line the program stops, if
      it does. Each reported close leaves one task closing until libuv has called back. When tasks can always be
      created, it stops if and only if c-ares closes a socket that it does not have open. */
  method DriveFromInit(inputs: seq<Input>) returns (r: Resolver, stop: Option<nat>)
    ensures r.Valid()
    ensures match Reactions(View(map[], false, 0, 0), inputs)
      case Stopped(line) => stop == Some(line)
      case Going(v) => stop == None && Seen(r.Abs()) == v
    ensures stop == None ==>
      && |r.closing| + r.freed == Reports(inputs) && r.freed <= Callbacks(inputs)
      && (r.freed == Callbacks(inputs) <==> Awaited(0, inputs))
    ensures AllCreate(inputs) ==>
      && stop == (if ClosesInOrder(map[], inputs) then None else Some(CLOSED_ASSERT))
      && (stop == None ==> Masks(r.Abs()) == InterestOf(map[], inputs) && TimerExact(r.Abs()))
  {
    r := new Resolver();
    ghost var trace;
    trace, stop := Drive(r, inputs);
    InitialInv<Task>();
    assert Masks(Initial<Task>()) == map[];
    FollowsReactions(Initial<Task>(), inputs, trace);
    if stop == None { ReactionsClosing(View(map[], false, 0, 0), inputs); }
    if AllCreate(inputs) {
      ReactionsInterest(View(map[], false, 0, 0), inputs);
      assert r.Abs().table == map[] <==> Masks(r.Abs()) == map[] by { MasksEmpty(r.Abs()); }
    }
  }

  lemma NonEmptyHasTimer(st: State<Task>)
    requires Inv(st)
    ensures st.table != map[] ==> st.timer
  {
    assert UnfoldTasks(0);
  }
}
