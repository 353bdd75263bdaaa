/** The DNS resolver's socket bookkeeping as a state machine: c-ares reports socket interest, libuv
    delivers poll, timer and close callbacks. T is the identity of a task (an ares_task_t). */
module ResolverModel {
  import opened Options
  import opened Unfolding

  /** What a socket is polled for. */
  datatype Mask = Mask(read: bool, write: bool)

  datatype Entry<T> = Entry(task: T, mask: Mask)

  datatype State<T> = State(
    table: map<int, Entry<T>>,  // ares_tasks, by socket
    closing: set<T>,            // tasks passed to uv_close and not yet freed
    timer: bool,                // ares_timer is active
    handedOut: nat,             // tasks handed out by ares_task_create so far
    freed: nat)                 // tasks freed so far

  /** `created` is what ares_task_create returns, should it be called. */
  datatype Event<T> =
    | SockState(sock: int, read: bool, write: bool, created: Option<T>)
    | Poll(sock: int)
    | Timeout
    | PollClosed(task: T)

  /** The next state, or the line of the assert that stops the program. */
  datatype Result<T> = Next(state: State<T>) | Abort(line: nat)

  const TIMEOUT_ASSERT: nat := 73
  const TIMER_ASSERT: nat := 144
  const CLOSED_ASSERT: nat := 169

  ghost function Initial<T>(): State<T> { State(map[], {}, false, 0, 0) }

  ghost function Step<T>(st: State<T>, e: Event<T>): Result<T> {
    match e
    case SockState(sock, read, write, created) =>
      if read || write then Opened(st, sock, Mask(read, write), created) else Closed(st, sock)
    case Poll(_) => Next(st)
    case Timeout => if st.table == map[] then Abort(TIMEOUT_ASSERT) else Next(st)
    case PollClosed(task) => Next(st.(closing := st.closing - {task}, freed := st.freed + 1))
  }

  ghost function Opened<T>(st: State<T>, sock: int, mask: Mask, created: Option<T>): Result<T> {
    if sock in st.table then
      Next(st.(table := st.table[sock := st.table[sock].(mask := mask)]))
    else if !st.timer && st.table != map[] then
      Abort(TIMER_ASSERT)
    else match created
      case None => Next(st.(timer := true))
      case Some(task) =>
        Next(st.(table := st.table[sock := Entry(task, mask)], timer := true, handedOut := st.handedOut + 1))
  }

  ghost function Closed<T>(st: State<T>, sock: int): Result<T> {
    if sock !in st.table then
      Abort(CLOSED_ASSERT)
    else
      var rest := st.table - {sock};
      Next(st.(table := rest, closing := st.closing + {st.table[sock].task}, timer := st.timer && rest != map[]))
  }

  /** What the environment keeps to: malloc returns memory that is not in use; only watchers that have
      not been closed poll; a stopped timer does not fire; each closed watcher is called back once. */
  ghost predicate Legal<T>(st: State<T>, e: Event<T>) {
    match e
    case SockState(_, _, _, created) => created.Some? ==> !InUse(st, created.value)
    case Poll(sock) => sock in st.table
    case Timeout => st.timer
    case PollClosed(task) => task in st.closing
  }

  ghost predicate InUse<T>(st: State<T>, task: T) {
    task in st.closing || exists s :: s in st.table && st.table[s].task == task
  }

  /** A non-empty table keeps the timer running; tasks are allocated, in the table once or closing,
      and then freed once. */
  ghost predicate Inv<T>(st: State<T>) {
    forall k {:trigger UnfoldTasks(k)} :: UnfoldTasks(k) ==> TasksInOrder(st) && (st.table != map[] ==> st.timer)
  }

  ghost predicate TasksInOrder<T>(st: State<T>) {
    && (forall s :: s in st.table ==> st.table[s].task !in st.closing)
    && (forall s, r :: s in st.table && r in st.table && st.table[s].task == st.table[r].task ==> s == r)
    && st.handedOut == st.freed + |st.table.Keys| + |st.closing|
  }

  /** The assert on line 144 cannot fire, whether or not tasks can be created, and the others fire only
      when they say they do. */
  lemma StepInv<T>(st: State<T>, e: Event<T>)
    requires Inv(st) && Legal(st, e)
    ensures Step(st, e) != Abort(TIMER_ASSERT)
    ensures Step(st, e) == Abort(TIMEOUT_ASSERT) <==> e.Timeout? && st.table == map[]
    ensures Step(st, e) == Abort(CLOSED_ASSERT) <==> e.SockState? && !e.read && !e.write && e.sock !in st.table
    ensures Step(st, e).Next? ==> Inv(Step(st, e).state)
  {
    assert UnfoldTasks(0);
    if e.SockState? {
      if e.read || e.write {
        OpenedInv(st, e.sock, Mask(e.read, e.write), e.created);
      } else if e.sock in st.table {
        ClosedInv(st, e.sock);
      }
    }
  }

  lemma OpenedInv<T>(st: State<T>, sock: int, mask: Mask, created: Option<T>)
    requires Inv(st) && (created.Some? ==> !InUse(st, created.value))
    ensures Opened(st, sock, mask, created).Next? && Inv(Opened(st, sock, mask, created).state)
  {
    assert UnfoldTasks(0);
    var st' := Opened(st, sock, mask, created).state;
    if sock in st.table {
      assert st'.table.Keys == st.table.Keys;
      assert forall s :: s in st.table ==> st'.table[s].task == st.table[s].task;
    } else if created.Some? {
      assert st'.table.Keys == st.table.Keys + {sock};
      assert forall s :: s in st.table ==> st'.table[s] == st.table[s];
    }
  }

  lemma ClosedInv<T>(st: State<T>, sock: int)
    requires Inv(st) && sock in st.table
    ensures Closed(st, sock).Next? && Inv(Closed(st, sock).state)
  {
    assert UnfoldTasks(0);
    var st' := Closed(st, sock).state;
    assert st'.table.Keys == st.table.Keys - {sock};
    assert |st'.closing| == |st.closing| + 1;
    assert forall s :: s in st'.table ==> st'.table[s] == st.table[s];
  }

  // ---- whole runs

  ghost predicate LegalRun<T>(st: State<T>, es: seq<Event<T>>)
    decreases |es|
  {
    es != [] ==> Legal(st, es[0]) && (Step(st, es[0]).Next? ==> LegalRun(Step(st, es[0]).state, es[1..]))
  }

  /** The run ends, or stops at the first assert that fails. */
  ghost function Run<T>(st: State<T>, es: seq<Event<T>>): Result<T>
    decreases |es|
  {
    if es == [] then Next(st)
    else match Step(st, es[0])
      case Abort(line) => Abort(line)
      case Next(next) => Run(next, es[1..])
  }

  /** No reachable state stops at line 144, and every reachable state has the invariant. */
  lemma {:induction false} RunInv<T>(st: State<T>, es: seq<Event<T>>)
    requires Inv(st) && LegalRun(st, es)
    ensures Run(st, es) != Abort(TIMER_ASSERT)
    ensures Run(st, es).Next? ==> Inv(Run(st, es).state)
    decreases |es|
  {
    if es != [] {
      StepInv(st, es[0]);
      if Step(st, es[0]).Next? { RunInv(Step(st, es[0]).state, es[1..]); }
    }
  }

  lemma InitialInv<T>()
    ensures Inv(Initial<T>())
  {
    assert UnfoldTasks(0);
  }

  // ---- the timer and the assert on line 73

  ghost predicate TimerExact<T>(st: State<T>) { st.timer <==> st.table != map[] }

  ghost predicate TimerExactThroughout<T>(st: State<T>, es: seq<Event<T>>)
    decreases |es|
  {
    && TimerExact(st)
    && (es != [] && Step(st, es[0]).Next? ==> TimerExactThroughout(Step(st, es[0]).state, es[1..]))
  }

  /** The first socket is reported, and no task can be created for it. */
  ghost predicate FirstTaskFails<T>(st: State<T>, e: Event<T>) {
    e.SockState? && (e.read || e.write) && e.created.None? && st.table == map[]
  }

  ghost predicate FirstTaskFailsIn<T>(st: State<T>, es: seq<Event<T>>)
    decreases |es|
  {
    es != [] && (FirstTaskFails(st, es[0]) || (Step(st, es[0]).Next?
        && FirstTaskFailsIn(Step(st, es[0]).state, es[1..])))
  }

  /** The timer runs exactly while there are sockets, unless task creation fails while there are none. */
  lemma {:induction false} TimerExactness<T>(st: State<T>, es: seq<Event<T>>)
    requires Inv(st) && LegalRun(st, es) && TimerExact(st)
    ensures TimerExactThroughout(st, es) <==> !FirstTaskFailsIn(st, es)
    decreases |es|
  {
    if es != [] {
      StepInv(st, es[0]);
      TimerStep(st, es[0]);
      if Step(st, es[0]).Next? && TimerExact(Step(st, es[0]).state) {
        TimerExactness(Step(st, es[0]).state, es[1..]);
      }
    }
  }

  lemma TimerStep<T>(st: State<T>, e: Event<T>)
    requires Inv(st) && Legal(st, e) && TimerExact(st)
    ensures Step(st, e).Next? ==> (TimerExact(Step(st, e).state) <==> !FirstTaskFails(st, e))
    ensures FirstTaskFails(st, e) ==> Step(st, e).Next?
  {
    assert UnfoldTasks(0);
    if e.SockState? && (e.read || e.write) {
      if e.created.Some? { assert e.sock in Step(st, e).state.table; }
    }
  }

  /** While the timer is exact, the timeout handler's assert holds; once the first task has failed, the
      next tick of the timer stops the program. */
  lemma TimeoutAssert<T>(st: State<T>)
    requires Inv(st) && st.timer
    ensures Step(st, Timeout) == Abort(TIMEOUT_ASSERT) <==> !TimerExact(st)
  {
    assert UnfoldTasks(0);
  }

  /** The timer is on with no socket left: if it fires now, the program stops. */
  ghost predicate TickStops<T>(st: State<T>) { st.timer && Step(st, Timeout) == Abort(TIMEOUT_ASSERT) }

  ghost predicate TickStopsIn<T>(st: State<T>, es: seq<Event<T>>)
    decreases |es|
  {
    TickStops(st) || (es != [] && Step(st, es[0]).Next? && TickStopsIn(Step(st, es[0]).state, es[1..]))
  }

  /** Somewhere along a run a tick would stop the program if and only if a first task could not be
      created in it. */
  lemma {:induction false} TickExactness<T>(st: State<T>, es: seq<Event<T>>)
    requires Inv(st) && LegalRun(st, es) && TimerExact(st)
    ensures TickStopsIn(st, es) <==> FirstTaskFailsIn(st, es)
    decreases |es|
  {
    TimerExactness(st, es);
    TickInexact(st, es);
  }

  lemma {:induction false} TickInexact<T>(st: State<T>, es: seq<Event<T>>)
    requires Inv(st) && LegalRun(st, es)
    ensures TickStopsIn(st, es) <==> !TimerExactThroughout(st, es)
    decreases |es|
  {
    assert UnfoldTasks(0);
    if es != [] {
      StepInv(st, es[0]);
      if Step(st, es[0]).Next? { TickInexact(Step(st, es[0]).state, es[1..]); }
    }
  }

  /** A run that stops at line 73 has had such a failure ... */
  lemma {:induction false} TimeoutStops<T>(st: State<T>, es: seq<Event<T>>)
    requires Inv(st) && LegalRun(st, es) && TimerExact(st) && Run(st, es) == Abort(TIMEOUT_ASSERT)
    ensures FirstTaskFailsIn(st, es)
    decreases |es|
  {
    StepInv(st, es[0]);
    TimerStep(st, es[0]);
    if !FirstTaskFails(st, es[0]) {
      TimeoutStops(Step(st, es[0]).state, es[1..]);
    }
  }

  /** ... and after any such failure the timer may fire next, and stops the program if it does. */
  lemma FirstTaskFailsStops<T>(st: State<T>, e: Event<T>)
    requires Inv(st) && Legal(st, e) && FirstTaskFails(st, e)
    ensures Step(st, e).Next? && Legal(Step(st, e).state, Timeout)
    ensures Step(Step(st, e).state, Timeout) == Abort(TIMEOUT_ASSERT)
  {
    assert UnfoldTasks(0);
    StepInv(st, e);
  }

  /** The shortest such run. */
  lemma FirstTaskFailsWitness<T>()
    ensures var es := [SockState(7, true, false, None), Timeout];
      LegalRun(Initial<T>(), es) && Run(Initial<T>(), es) == Abort(TIMEOUT_ASSERT)
  {
    var es: seq<Event<T>> := [SockState(7, true, false, None), Timeout];
    var st := Step(Initial<T>(), es[0]).state;
    assert es[1..] == [es[1]] && es[1..][1..] == [];
    assert Run(st, es[1..]) == Abort(TIMEOUT_ASSERT);
  }

  // ---- socket interest and the assert on line 169

  /** What each socket in the table is polled for. */
  ghost function Masks<T>(st: State<T>): map<int, Mask> { map s | s in st.table :: st.table[s].mask }

  /** The sockets c-ares has an interest in, by its latest report on each. */
  ghost function Interest<T>(open: map<int, Mask>, e: Event<T>): map<int, Mask> {
    if !e.SockState? then open
    else if e.read || e.write then open[e.sock := Mask(e.read, e.write)]
    else open - {e.sock}
  }

  ghost function InterestAfter<T>(open: map<int, Mask>, es: seq<Event<T>>): map<int, Mask>
    decreases |es|
  {
    if es == [] then open else InterestAfter(Interest(open, es[0]), es[1..])
  }

  /** c-ares reports a socket closed only if it had reported it open. */
  ghost predicate ClosesOnlyOpen<T>(open: map<int, Mask>, es: seq<Event<T>>)
    decreases |es|
  {
    es != [] ==>
      && (es[0].SockState? && !es[0].read && !es[0].write ==> es[0].sock in open)
      && ClosesOnlyOpen(Interest(open, es[0]), es[1..])
  }

  ghost predicate TaskFails<T>(st: State<T>, e: Event<T>) {
    e.SockState? && (e.read || e.write) && e.created.None? && e.sock !in st.table
  }

  ghost predicate TaskFailsIn<T>(st: State<T>, es: seq<Event<T>>)
    decreases |es|
  {
    es != [] && (TaskFails(st, es[0]) || (Step(st, es[0]).Next? && TaskFailsIn(Step(st, es[0]).state, es[1..])))
  }

  ghost predicate InStepThroughout<T>(st: State<T>, open: map<int, Mask>, es: seq<Event<T>>)
    decreases |es|
  {
    && Masks(st) == open
    && (es != [] && Step(st, es[0]).Next? ==>
          InStepThroughout(Step(st, es[0]).state, Interest(open, es[0]), es[1..]))
  }

  lemma OpenedMasks<T>(st: State<T>, sock: int, mask: Mask, created: Option<T>)
    requires Opened(st, sock, mask, created).Next? && (sock in st.table || created.Some?)
    ensures Masks(Opened(st, sock, mask, created).state) == Masks(st)[sock := mask]
  {
    var m, i := Masks(Opened(st, sock, mask, created).state), Masks(st)[sock := mask];
    assert m.Keys == i.Keys;
    assert forall s :: s in m ==> m[s] == i[s];
  }

  lemma ClosedMasks<T>(st: State<T>, sock: int)
    requires sock in st.table
    ensures Masks(Closed(st, sock).state) == Masks(st) - {sock}
  {
    var m, i := Masks(Closed(st, sock).state), Masks(st) - {sock};
    assert m.Keys == i.Keys;
    assert forall s :: s in m ==> m[s] == i[s];
  }

  lemma InterestStep<T>(st: State<T>, open: map<int, Mask>, e: Event<T>)
    requires Inv(st) && Legal(st, e) && Masks(st) == open
    requires e.SockState? && !e.read && !e.write ==> e.sock in open
    ensures Step(st, e).Next? ==> (Masks(Step(st, e).state) == Interest(open, e) <==> !TaskFails(st, e))
    ensures TaskFails(st, e) ==> Step(st, e).Next?
    ensures Step(st, e) != Abort(CLOSED_ASSERT)
  {
    assert UnfoldTasks(0);
    StepInv(st, e);
    if TaskFails(st, e) {
      assert e.sock in Interest(open, e) && e.sock !in Masks(Step(st, e).state);
    } else if Step(st, e).Next? && e.SockState? {
      if e.read || e.write {
        OpenedMasks(st, e.sock, Mask(e.read, e.write), e.created);
      } else {
        ClosedMasks(st, e.sock);
      }
    }
  }

  /** The table holds exactly the sockets of interest, polled for exactly what was last reported,
      throughout a run: that is so if and only if no task creation fails in it. */
  lemma {:induction false} InterestExactness<T>(st: State<T>, open: map<int, Mask>, es: seq<Event<T>>)
    requires Inv(st) && LegalRun(st, es) && ClosesOnlyOpen(open, es) && Masks(st) == open
    ensures InStepThroughout(st, open, es) <==> !TaskFailsIn(st, es)
    decreases |es|
  {
    if es != [] {
      StepInv(st, es[0]);
      InterestStep(st, open, es[0]);
      if Step(st, es[0]).Next? && Masks(Step(st, es[0]).state) == Interest(open, es[0]) {
        InterestExactness(Step(st, es[0]).state, Interest(open, es[0]), es[1..]);
      }
    }
  }

  /** Without failing task creations no assert fires at all. */
  lemma {:induction false} NoAssertFires<T>(st: State<T>, open: map<int, Mask>, es: seq<Event<T>>)
    requires Inv(st) && TimerExact(st) && Masks(st) == open
    requires LegalRun(st, es) && ClosesOnlyOpen(open, es) && !TaskFailsIn(st, es)
    ensures Run(st, es).Next? && Inv(Run(st, es).state) && TimerExact(Run(st, es).state)
    ensures Masks(Run(st, es).state) == InterestAfter(open, es)
    decreases |es|
  {
    if es != [] {
      StepInv(st, es[0]);
      InterestStep(st, open, es[0]);
      TimerStep(st, es[0]);
      NoAssertFires(Step(st, es[0]).state, Interest(open, es[0]), es[1..]);
    }
  }

  /** Once a task creation has failed, c-ares closing that socket stops the program. */
  lemma TaskFailsStops<T>(st: State<T>, e: Event<T>)
    requires Inv(st) && Legal(st, e) && TaskFails(st, e)
    ensures Step(st, e).Next?
    ensures var close: Event<T> := SockState(e.sock, false, false, None);
      Legal(Step(st, e).state, close) && Step(Step(st, e).state, close) == Abort(CLOSED_ASSERT)
  {
    assert UnfoldTasks(0);
    StepInv(st, e);
  }

  // ---- what arrives from outside

  /** What reaches the resolver; `creates` says whether a task can be created, should one be needed. */
  datatype Input = SocketIn(sock: int, read: bool, write: bool, creates: bool) | PollIn(sock: int) | TickIn | ClosedIn

  /** The event that an input amounts to. What cannot happen (no such watcher, timer stopped, nothing
      closing) is none. */
  ghost predicate Gives<T>(st: State<T>, input: Input, e: Option<Event<T>>) {
    match input
    case SocketIn(sock, read, write, creates) =>
      && e.Some? && e.value.SockState? && e.value == SockState(sock, read, write, e.value.created)
      && (e.value.created.Some? ==> creates)
      && ((read || write) && sock !in st.table && creates ==> e.value.created.Some?)
    case PollIn(sock) => e == if sock in st.table then Some(Poll(sock)) else None
    case TickIn => e == if st.timer then Some(Timeout) else None
    case ClosedIn =>
      if st.closing == {} then e == None
      else e.Some? && e.value.PollClosed? && e.value.task in st.closing
  }

  /** The events of a run are those of the inputs, one after the other, up to the first assert that
      fails. */
  ghost predicate Follows<T>(st: State<T>, inputs: seq<Input>, es: seq<Event<T>>)
    decreases |inputs|
  {
    if inputs == [] then es == []
    else if Gives(st, inputs[0], None) then Follows(st, inputs[1..], es)
    else
      && es != [] && Gives(st, inputs[0], Some(es[0]))
      && match Step(st, es[0])
         case Abort(_) => |es| == 1
         case Next(next) => Follows(next, inputs[1..], es[1..])
  }

  /** What the inputs make of the resolver, without the identities of tasks: how many are closing, and how
      many have been freed. */
  datatype View = View(masks: map<int, Mask>, timer: bool, closing: nat, freed: nat)

  datatype Outcome = Going(view: View) | Stopped(line: nat)

  ghost function Reaction(v: View, input: Input): Outcome {
    match input
    case SocketIn(sock, read, write, creates) =>
      if read || write then
        if sock in v.masks then Going(v.(masks := v.masks[sock := Mask(read, write)]))
        else if creates then Going(v.(masks := v.masks[sock := Mask(read, write)], timer := true))
        else Going(v.(timer := true))
      else if sock in v.masks then
        Going(View(v.masks - {sock}, v.timer && v.masks - {sock} != map[], v.closing + 1, v.freed))
      else Stopped(CLOSED_ASSERT)
    case TickIn => if v.timer && v.masks == map[] then Stopped(TIMEOUT_ASSERT) else Going(v)
    case PollIn(_) => Going(v)
    case ClosedIn => Going(if v.closing > 0 then v.(closing := v.closing - 1, freed := v.freed + 1) else v)
  }

  ghost function Reactions(v: View, inputs: seq<Input>): Outcome
    decreases |inputs|
  {
    if inputs == [] then Going(v)
    else match Reaction(v, inputs[0])
      case Stopped(line) => Stopped(line)
      case Going(next) => Reactions(next, inputs[1..])
  }

  ghost function Seen<T>(st: State<T>): View { View(Masks(st), st.timer, |st.closing|, st.freed) }

  /** The outcome that an identity-free observer sees. */
  ghost predicate Shows<T>(r: Result<T>, o: Outcome) {
    match r
    case Abort(line) => o == Stopped(line)
    case Next(st) => o == Going(Seen(st))
  }

  /** The inputs alone decide what the table, the masks and the timer are, and which assert fails when. */
  lemma {:induction false} FollowsReactions<T>(st: State<T>, inputs: seq<Input>, es: seq<Event<T>>)
    requires Inv(st) && LegalRun(st, es) && Follows(st, inputs, es)
    ensures Shows(Run(st, es), Reactions(Seen(st), inputs))
    decreases |inputs|
  {
    if inputs != [] {
      if Gives(st, inputs[0], None) {
        NoReaction(st, inputs[0]);
        FollowsReactions(st, inputs[1..], es);
      } else {
        StepInv(st, es[0]);
        ReactionStep(st, inputs[0], es[0]);
        if Step(st, es[0]).Next? {
          FollowsReactions(Step(st, es[0]).state, inputs[1..], es[1..]);
        }
      }
    }
  }

  lemma NoReaction<T>(st: State<T>, input: Input)
    requires Inv(st) && Gives(st, input, None)
    ensures Reaction(Seen(st), input) == Going(Seen(st))
  {}

  lemma MasksEmpty<T>(st: State<T>)
    ensures Masks(st) == map[] <==> st.table == map[]
  {
    SameKeys(Masks(st), st.table);
  }

  lemma SameKeys<K, V, W>(m: map<K, V>, n: map<K, W>)
    requires m.Keys == n.Keys
    ensures m == map[] <==> n == map[]
  {
    assert m == map[] <==> m.Keys == {};
    assert n == map[] <==> n.Keys == {};
  }

  lemma ReactionStep<T>(st: State<T>, input: Input, e: Event<T>)
    requires Inv(st) && Legal(st, e) && Gives(st, input, Some(e))
    ensures Shows(Step(st, e), Reaction(Seen(st), input))
  {
    StepInv(st, e);
    assert Masks(st).Keys == st.table.Keys;
    MasksEmpty(st);
    if e.SockState? {
      if e.read || e.write {
        if e.sock in st.table || e.created.Some? { OpenedMasks(st, e.sock, Mask(e.read, e.write), e.created); }
      } else if e.sock in st.table {
        ClosedMasks(st, e.sock);
        MasksEmpty(Closed(st, e.sock).state);
        assert st.table[e.sock].task !in st.closing by { assert UnfoldTasks(0); }
      }
    }
  }

  // ---- what the inputs make, when tasks can be created

  /** The sockets c-ares has an interest in, by its latest report on each. */
  ghost function InterestOf(open: map<int, Mask>, inputs: seq<Input>): map<int, Mask>
    decreases |inputs|
  {
    if inputs == [] then open
    else
      var i, rest := inputs[0], inputs[1..];
      if !i.SocketIn? then InterestOf(open, rest)
      else if i.read || i.write then InterestOf(open[i.sock := Mask(i.read, i.write)], rest)
      else InterestOf(open - {i.sock}, rest)
  }

  ghost predicate AllCreate(inputs: seq<Input>) {
    forall i :: 0 <= i < |inputs| && inputs[i].SocketIn? ==> inputs[i].creates
  }

  /** Then the program stops if and only if c-ares closes a socket it does not have open, at line 169;
      until then the table is the interest, and the timer runs exactly while there is any. */
  lemma {:induction false} ReactionsInterest(v: View, inputs: seq<Input>)
    requires AllCreate(inputs) && (v.timer <==> v.masks != map[])
    ensures match Reactions(v, inputs)
      case Stopped(line) => line == CLOSED_ASSERT && !ClosesInOrder(v.masks, inputs)
      case Going(w) =>
        && ClosesInOrder(v.masks, inputs) && w.masks == InterestOf(v.masks, inputs)
        && (w.timer <==> w.masks != map[])
    decreases |inputs|
  {
    if inputs != [] && Reaction(v, inputs[0]).Going? {
      var i := inputs[0];
      if i.SocketIn? && (i.read || i.write) {
        assert i.sock in v.masks[i.sock := Mask(i.read, i.write)];
      }
      ReactionsInterest(Reaction(v, i).view, inputs[1..]);
    }
  }

  /** c-ares reports sockets closed only while it has them open. */
  ghost predicate ClosesInOrder(open: map<int, Mask>, inputs: seq<Input>)
    decreases |inputs|
  {
    inputs != [] ==>
      var i, rest := inputs[0], inputs[1..];
      if !i.SocketIn? then ClosesInOrder(open, rest)
      else if i.read || i.write then ClosesInOrder(open[i.sock := Mask(i.read, i.write)], rest)
      else i.sock in open && ClosesInOrder(open - {i.sock}, rest)
  }
}
