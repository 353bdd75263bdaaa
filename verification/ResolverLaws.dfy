/** What happens to a task: it stays allocated until libuv has called back for its closed watcher, and is
    freed then. */
module ResolverLaws {
  import opened Options
  import opened Unfolding
  import opened ResolverModel

  // ---- one event

  /** A task goes from malloc to the table, from the table to the closing watchers, and from there to
      free. Nothing happens to any other, and only the callback of a closed watcher frees. */
  lemma TaskLaw<T>(st: State<T>, e: Event<T>, task: T)
    requires Inv(st) && Legal(st, e) && Step(st, e).Next?
    ensures Step(st, e).state.freed == st.freed + if e.PollClosed? then 1 else 0
    ensures var st' := Step(st, e).state;
      match e
      case SockState(sock, read, write, created) =>
        if sock in st.table && st.table[sock].task == task then
          if read || write then task !in st'.closing && sock in st'.table && st'.table[sock].task == task
          else task in st'.closing && !InTable(st', task)
        else if (read || write) && sock !in st.table && created == Some(task) then
          task !in st'.closing && sock in st'.table && st'.table[sock].task == task
        else Alike(st, st', task)
      case PollClosed(t) => if t == task then !InUse(st', task) else Alike(st, st', task)
      case _ => Alike(st, st', task)
  {
    assert UnfoldTasks(0);
    var st' := Step(st, e).state;
    if e.SockState? {
      assert forall s :: s != e.sock ==> (s in st.table <==> s in st'.table);
      assert forall s :: s != e.sock && s in st.table ==> st'.table[s] == st.table[s];
    }
  }

  ghost predicate InTable<T>(st: State<T>, task: T) { exists s :: s in st.table && st.table[s].task == task }

  ghost predicate Alike<T>(st: State<T>, st': State<T>, task: T) {
    && (task in st.closing <==> task in st'.closing)
    && forall s :: s in st.table && st.table[s].task == task <==> s in st'.table && st'.table[s].task == task
  }

  // ---- runs

  ghost function Frees<T>(es: seq<Event<T>>): nat {
    if es == [] then 0 else (if es[0].PollClosed? then 1 else 0) + Frees(es[1..])
  }

  /** A run frees once for each such callback in it. */
  lemma {:induction false} RunFrees<T>(st: State<T>, es: seq<Event<T>>)
    requires Run(st, es).Next?
    ensures Run(st, es).state.freed == st.freed + Frees(es)
    decreases |es|
  {
    if es != [] {
      RunFrees(Step(st, es[0]).state, es[1..]);
    }
  }

  /** A task stays allocated until the callback for its own watcher: in the table or closing, and closing
      once it is closing. */
  lemma {:induction false} KeptUntilClosed<T>(st: State<T>, es: seq<Event<T>>, task: T)
    requires Inv(st) && LegalRun(st, es) && Run(st, es).Next?
    requires InUse(st, task) && PollClosed(task) !in es
    ensures InUse(Run(st, es).state, task)
    ensures task in st.closing ==> task in Run(st, es).state.closing
    decreases |es|
  {
    if es != [] {
      StepInv(st, es[0]);
      StepKeeps(st, es[0], task);
      KeptUntilClosed(Step(st, es[0]).state, es[1..], task);
    }
  }

  lemma StepKeeps<T>(st: State<T>, e: Event<T>, task: T)
    requires Inv(st) && Legal(st, e) && Step(st, e).Next? && InUse(st, task) && e != PollClosed(task)
    ensures InUse(Step(st, e).state, task)
    ensures task in st.closing ==> task in Step(st, e).state.closing
  {
    assert UnfoldTasks(0);
    TaskLaw(st, e, task);
    if task !in st.closing {
      var s :| s in st.table && st.table[s].task == task;
    }
  }

  /** The task of a socket reported closed is closing from then on, and is allocated until libuv calls
      back. */
  lemma ClosingUntilClosed<T>(st: State<T>, sock: int, created: Option<T>, es: seq<Event<T>>)
    requires Inv(st) && sock in st.table
    requires var run := [SockState(sock, false, false, created)] + es; LegalRun(st, run) && Run(st, run).Next?
    requires PollClosed(st.table[sock].task) !in es
    ensures st.table[sock].task in Run(st, [SockState(sock, false, false, created)] + es).state.closing
  {
    var e := SockState(sock, false, false, created);
    assert ([e] + es)[1..] == es;
    StepInv(st, e);
    TaskLaw(st, e, st.table[sock].task);
    KeptUntilClosed(Step(st, e).state, es, st.table[sock].task);
  }

  // ---- the inputs alone

  ghost predicate ReportsClosed(input: Input) { input.SocketIn? && !input.read && !input.write }

  ghost function Reports(inputs: seq<Input>): nat {
    if inputs == [] then 0 else (if ReportsClosed(inputs[0]) then 1 else 0) + Reports(inputs[1..])
  }

  ghost function Callbacks(inputs: seq<Input>): nat {
    if inputs == [] then 0 else (if inputs[0].ClosedIn? then 1 else 0) + Callbacks(inputs[1..])
  }

  /** Each callback comes for a watcher that was closed before. */
  ghost predicate Awaited(closing: nat, inputs: seq<Input>) {
    forall n :: 0 <= n <= |inputs| ==> Callbacks(inputs[..n]) <= closing + Reports(inputs[..n])
  }

  /** Every reported close is closing or freed at the end, and a callback frees one: all of them do, if and
      only if each comes for a watcher closed before. */
  lemma {:induction false} ReactionsClosing(v: View, inputs: seq<Input>)
    requires Reactions(v, inputs).Going?
    ensures var w := Reactions(v, inputs).view;
      && w.closing + w.freed == v.closing + v.freed + Reports(inputs)
      && v.freed <= w.freed <= v.freed + Callbacks(inputs)
      && (w.freed == v.freed + Callbacks(inputs) <==> Awaited(v.closing, inputs))
    decreases |inputs|
  {
    if inputs != [] {
      var i, rest := inputs[0], inputs[1..];
      var next := Reaction(v, i).view;
      ReactionsClosing(next, rest);
      AwaitedRest(v.closing, next.closing, inputs);
    }
  }

  lemma AwaitedRest(closing: nat, next: nat, inputs: seq<Input>)
    requires inputs != []
    requires next == if ReportsClosed(inputs[0]) then closing + 1
      else if inputs[0].ClosedIn? && closing > 0 then closing - 1 else closing
    ensures Awaited(closing, inputs) <==> !(inputs[0].ClosedIn? && closing == 0) && Awaited(next, inputs[1..])
  {
    forall n | 0 <= n <= |inputs| - 1
      ensures inputs[..n + 1][0] == inputs[0] && inputs[..n + 1][1..] == inputs[1..][..n]
    {
    }
    if Awaited(closing, inputs) {
      assert inputs[..1][1..] == [];
      assert Callbacks(inputs[..1]) <= closing + Reports(inputs[..1]);
      forall n | 0 <= n <= |inputs[1..]| ensures Callbacks(inputs[1..][..n]) <= next + Reports(inputs[1..][..n]) {
        assert Callbacks(inputs[..n + 1]) <= closing + Reports(inputs[..n + 1]);
      }
    }
    if !(inputs[0].ClosedIn? && closing == 0) && Awaited(next, inputs[1..]) {
      forall n | 0 <= n <= |inputs| ensures Callbacks(inputs[..n]) <= closing + Reports(inputs[..n]) {
        if n > 0 {
          assert Callbacks(inputs[1..][..n - 1]) <= next + Reports(inputs[1..][..n - 1]);
          assert inputs[..n][1..] == inputs[1..][..n - 1];
        }
      }
    }
  }
}
