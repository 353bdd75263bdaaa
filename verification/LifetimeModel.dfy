/** What the actions of Lua and the deliveries of the main loop make of a stream handle, without the
    registry: how many references are held and for what, and whether one has ever come back to none. */
module LifetimeModel {
  import opened Unfolding

  /** A request that has not completed, by the registry slots it holds. */
  datatype Request = Request(data: bool, callback: bool) {
    function Slots(): nat { (if data then 1 else 0) + if callback then 1 else 0 }
  }

  /** What Lua code can do to a stream: from the main loop, or inside any callback. libuv accepts a
      request or refuses it. */
  datatype Action =
    | Write(callback: bool, accepted: bool)
    | Shutdown(callback: bool, accepted: bool)
    | ReadStart
    | ReadStop
    | Close

  /** What the main loop delivers. Requests are numbered in the order of their submission; the script is
      what the Lua callback does, if there is one. */
  datatype Event =
    | Lua(action: Action)
    | Completed(id: nat, script: seq<Action>)
    | ReadEvent(script: seq<Action>)
    | Closed(script: seq<Action>)

  datatype Book = Book(
    reading: nat,                // read-starts not yet matched by a read-stop
    requests: map<nat, Request>, // accepted requests that have not completed
    submitted: nat,              // requests submitted so far
    closing: bool,
    live: bool,                  // the close callback has not run
    refusals: nat,               // requests that libuv has refused
    lost: nat,                   // the slots those hold
    dropped: bool)               // the count has come back to zero, or the handle is closed
  {
    /** refCount */
    ghost function Total(): nat {
      if live then reading + |requests| + refusals + (if closing then 1 else 0) else 0
    }

    /** Just after a reference has been dropped. */
    ghost function Noted(): Book { this.(dropped := dropped || Total() == 0) }
  }

  const OPENED: Book := Book(0, map[], 0, false, true, 0, 0, false)

  /** libuv accepts requests only until the handle is closed, a read-start takes its reference whatever
      libuv answers, and a stop needs its start. */
  predicate Allowed(a: Action, live: bool, closing: bool, reading: nat) {
    match a
    case Write(_, accepted) => live && (accepted ==> !closing)
    case Shutdown(_, accepted) => live && (accepted ==> !closing)
    case ReadStart => live
    case ReadStop => live && reading > 0
    case Close => live
  }

  ghost function Submitted(b: Book, r: Request, accepted: bool): Book {
    if accepted then b.(requests := b.requests[b.submitted := r], submitted := b.submitted + 1)
    else b.(submitted := b.submitted + 1, refusals := b.refusals + 1, lost := b.lost + r.Slots())
  }

  /** One action; what cannot happen is passed over. */
  ghost function Done(b: Book, a: Action): Book {
    if !Allowed(a, b.live, b.closing, b.reading) then b
    else match a
      case Write(callback, accepted) => Submitted(b, Request(true, callback), accepted)
      case Shutdown(callback, accepted) => Submitted(b, Request(false, callback), accepted)
      case ReadStart => b.(reading := b.reading + 1)
      case ReadStop => b.(reading := b.reading - 1).Noted()
      case Close => b.(closing := true)
  }

  ghost function AllDone(b: Book, script: seq<Action>): Book {
    if script == [] then b else Done(AllDone(b, script[..|script| - 1]), script[|script| - 1])
  }

  lemma AllDoneNext(b: Book, script: seq<Action>, n: nat)
    requires n < |script|
    ensures AllDone(b, script[..n + 1]) == Done(AllDone(b, script[..n]), script[n])
  {
    assert script[..n + 1][..n] == script[..n];
  }

  /** Its slots are released, then its callback runs, then its reference is dropped. */
  ghost function AfterCompletion(b: Book, id: nat, script: seq<Action>): Book
    requires id in b.requests
  {
    var released := b.(requests := b.requests[id := Request(false, false)]);
    var called := if b.requests[id].callback then AllDone(released, script) else released;
    called.(requests := called.requests - {id}).Noted()
  }

  /** Whatever the count is, the last thing the close callback does is to drop it to zero. */
  ghost function AfterClosing(b: Book, script: seq<Action>): Book {
    AllDone(b, script).(live := false, reading := 0, dropped := true)
  }

  /** One delivery. Requests complete in any order, but before the close callback; a read callback comes
      only while reading. What cannot happen is passed over. */
  ghost function Delivered(b: Book, e: Event): Book {
    match e
    case Lua(action) => Done(b, action)
    case Completed(id, script) => if b.live && id in b.requests then AfterCompletion(b, id, script) else b
    case ReadEvent(script) => if b.live && b.reading > 0 then AllDone(b, script) else b
    case Closed(script) => if b.live && b.closing && b.requests == map[] then AfterClosing(b, script) else b
  }

  ghost function After(b: Book, events: seq<Event>): Book {
    if events == [] then b else Delivered(After(b, events[..|events| - 1]), events[|events| - 1])
  }

  // ---- nothing but a refusal upsets the balance

  /** No number is given twice. */
  ghost predicate Numbered(b: Book) {
    forall u {:trigger UnfoldNumbers(u)} :: UnfoldNumbers(u) ==> forall id :: id in b.requests ==> id < b.submitted
  }

  /** A read that is started and stopped leaves everything as it was, except that an idle handle has now
      come back to zero. */
  lemma ReadRoundTrip(b: Book)
    requires b.live
    ensures Done(Done(b, ReadStart), ReadStop) == b.(dropped := b.dropped || b.Total() == 0)
  {}

  /** So does a request that is accepted and completes, but for its number. */
  lemma RequestRoundTrip(b: Book, a: Action)
    requires Numbered(b) && b.live && !b.closing && (a.Write? || a.Shutdown?) && a.accepted
    ensures Delivered(Done(b, a), Completed(b.submitted, [])) ==
      b.(submitted := b.submitted + 1, dropped := b.dropped || b.Total() == 0)
  {
    assert UnfoldNumbers(0);
    var r := Request(a.Write?, a.callback);
    var n := b.submitted;
    assert Done(b, a).requests == b.requests[n := r];
    assert b.requests[n := r][n := Request(false, false)] - {n} == b.requests;
    assert AllDone(Done(b, a), []) == Done(b, a);
  }

  /** A refused one leaves a reference behind, and a write a slot as well. */
  lemma RefusalRemains(b: Book, a: Action)
    requires b.live && (a.Write? || a.Shutdown?) && !a.accepted
    ensures var c := Done(b, a);
      && c.Total() == b.Total() + 1 && c.requests == b.requests && c.refusals == b.refusals + 1
      && (c.lost == b.lost <==> a.Shutdown? && !a.callback)
  {}

  /** The action is a request that libuv refuses; only those that hold slots, if `holding`. */
  predicate Refusal(a: Action, holding: bool) {
    (a.Write? || a.Shutdown?) && !a.accepted && (holding ==> a.Write? || a.callback)
  }

  /** Some action that is done, when the script runs from b, is such a refusal. */
  ghost predicate ScriptRefused(b: Book, script: seq<Action>, holding: bool) {
    script != [] &&
      var init, a := script[..|script| - 1], script[|script| - 1];
      ScriptRefused(b, init, holding) || (Refusal(a, holding) && AllDone(b, init).live)
  }

  ghost predicate Refused(b: Book, e: Event, holding: bool) {
    match e
    case Lua(a) => ScriptRefused(b, [a], holding)
    case Completed(id, script) =>
      && b.live && id in b.requests && b.requests[id].callback
      && ScriptRefused(b.(requests := b.requests[id := Request(false, false)]), script, holding)
    case ReadEvent(script) => b.live && b.reading > 0 && ScriptRefused(b, script, holding)
    case Closed(script) => b.live && b.closing && b.requests == map[] && ScriptRefused(b, script, holding)
  }

  ghost predicate RefusedIn(b: Book, events: seq<Event>, holding: bool) {
    events != [] &&
      var init, e := events[..|events| - 1], events[|events| - 1];
      RefusedIn(b, init, holding) || Refused(After(b, init), e, holding)
  }

  /** From b to c the accounts of refusals and of lost slots have grown, or not. */
  ghost predicate Grown(b: Book, c: Book, refused: bool, losing: bool) {
    && c.refusals >= b.refusals && c.lost >= b.lost
    && (c.refusals == b.refusals <==> !refused) && (c.lost == b.lost <==> !losing)
  }

  lemma {:induction false} ScriptRefusals(b: Book, script: seq<Action>)
    ensures Grown(b, AllDone(b, script), ScriptRefused(b, script, false), ScriptRefused(b, script, true))
  {
    if script != [] {
      ScriptRefusals(b, script[..|script| - 1]);
    }
  }

  lemma EventRefusals(b: Book, e: Event)
    ensures Grown(b, Delivered(b, e), Refused(b, e, false), Refused(b, e, true))
  {
    match e
    case Lua(a) =>
      ScriptRefusals(b, [a]);
      AllDoneNext(b, [a], 0);
      assert [a][..1] == [a] && [a][..0] == [];
    case Completed(id, script) =>
      if b.live && id in b.requests {
        ScriptRefusals(b.(requests := b.requests[id := Request(false, false)]), script);
      }
    case ReadEvent(script) => ScriptRefusals(b, script);
    case Closed(script) => ScriptRefusals(b, script);
  }

  /** The account of refusals grows if and only if libuv refuses some request along the run, and slots are
      lost if and only if it refuses a write, or a shutdown with a callback. */
  lemma {:induction false} RunRefusals(b: Book, events: seq<Event>)
    ensures Grown(b, After(b, events), RefusedIn(b, events, false), RefusedIn(b, events, true))
  {
    if events != [] {
      RunRefusals(b, events[..|events| - 1]);
      EventRefusals(After(b, events[..|events| - 1]), events[|events| - 1]);
    }
  }

  // ---- the slot that keeps the creating coroutine alive

  /** refCount after a sequence of references taken (true) and dropped (false). */
  function Count(steps: seq<bool>): int {
    if steps == [] then 0 else Count(steps[..|steps| - 1]) + (if steps[|steps| - 1] then 1 else -1)
  }

  /** Whether the coroutine's slot is still held after those steps: the first drop to zero releases it. */
  function HoldsCoroutine(steps: seq<bool>): bool {
    steps == [] || (HoldsCoroutine(steps[..|steps| - 1]) && (steps[|steps| - 1] || Count(steps) != 0))
  }

  ghost predicate NeverBelowZero(steps: seq<bool>) { forall n :: 0 <= n <= |steps| ==> Count(steps[..n]) >= 0 }

  lemma StepTally(steps: seq<bool>, up: bool)
    ensures Count(steps + [up]) == Count(steps) + if up then 1 else -1
    ensures HoldsCoroutine(steps + [up]) <==> HoldsCoroutine(steps) && (up || Count(steps) != 1)
    ensures NeverBelowZero(steps) && Count(steps + [up]) >= 0 ==> NeverBelowZero(steps + [up])
  {
    var s := steps + [up];
    assert s[..|s| - 1] == steps && s[..|s|] == s;
    forall n | 0 <= n <= |s| ensures NeverBelowZero(steps) && Count(s) >= 0 ==> Count(s[..n]) >= 0 {
      if n < |s| { assert s[..n] == steps[..n]; }
    }
  }

  /** The slot is kept exactly as long as the count has not come back to zero, closed or not. */
  lemma {:induction false} CoroutineKeptWhile(steps: seq<bool>)
    requires NeverBelowZero(steps)
    ensures HoldsCoroutine(steps) <==> forall n :: 0 < n <= |steps| ==> Count(steps[..n]) > 0
  {
    if steps != [] {
      var init := steps[..|steps| - 1];
      assert forall n :: 0 <= n <= |init| ==> init[..n] == steps[..n];
      assert steps[..|steps|] == steps;
      CoroutineKeptWhile(init);
      if steps[|steps| - 1] { assert Count(init) >= 0 by { assert init[..|init|] == init; } }
    }
  }

  // ---- counting

  /** How a handle's fields follow from the book: the count n, which is one for each read-start, each
      incomplete request, each refused one and a close in progress; the userdata slot, which is held
      exactly while n is not zero; the coroutine's slot, which is held until n first comes back to zero;
      and the steps by which n came about. */
  ghost predicate Counted(b: Book, n: int, steps: seq<bool>, strong: bool, held: bool, inCoroutine: bool) {
    forall u {:trigger UnfoldCount(u)} :: UnfoldCount(u) ==> Balanced(b, n, steps, strong, held, inCoroutine)
  }

  ghost predicate Balanced(b: Book, n: int, steps: seq<bool>, strong: bool, held: bool, inCoroutine: bool) {
    && Numbered(b) && n == b.Total() && (n == 0 <==> !strong) && (held <==> inCoroutine && !b.dropped)
    && (b.refusals == 0 ==> b.lost == 0)
    && (if b.live then Tally(b, n, steps) else b.closing && b.dropped && b.reading == 0 && b.requests == map[])
  }

  ghost predicate Tally(b: Book, n: int, steps: seq<bool>) {
    n == Count(steps) && NeverBelowZero(steps) && (b.dropped <==> !HoldsCoroutine(steps))
  }

  lemma CountedOpened(inCoroutine: bool)
    ensures Counted(OPENED, 0, [], false, inCoroutine, inCoroutine)
  {}

  lemma CountedFacts(b: Book, n: int, steps: seq<bool>, strong: bool, held: bool, inCoroutine: bool)
    requires Counted(b, n, steps, strong, held, inCoroutine)
    ensures Numbered(b) && n == b.Total() && (n == 0 <==> !strong) && (held <==> inCoroutine && !b.dropped)
    ensures b.refusals == 0 ==> b.lost == 0
    ensures !b.live ==> b.closing && b.dropped && b.reading == 0 && b.requests == map[]
  {
    assert UnfoldCount(0);
  }

  lemma CountedTally(b: Book, n: int, steps: seq<bool>, strong: bool, held: bool, inCoroutine: bool)
    requires Counted(b, n, steps, strong, held, inCoroutine) && b.live
    ensures Tally(b, n, steps) && (held <==> inCoroutine && !b.dropped)
  {
    assert UnfoldCount(0);
  }

  /** Taking a reference leads from b to c. */
  lemma CountedTake(b: Book, c: Book, n: int, steps: seq<bool>, strong: bool, held: bool, inCoroutine: bool)
    requires Counted(b, n, steps, strong, held, inCoroutine) && b.live
    requires c.live && c.dropped == b.dropped && c.Total() == b.Total() + 1 && Numbered(c)
        && (c.refusals == 0 ==> c.lost == 0)
    ensures Counted(c, n + 1, steps + [true], true, held, inCoroutine)
  {
    assert UnfoldCount(0) && UnfoldNumbers(0);
    StepTally(steps, true);
  }

  /** Dropping one leads from b to c. */
  lemma CountedDrop(b: Book, c: Book, n: int, steps: seq<bool>, strong: bool, held: bool, inCoroutine: bool)
    requires Counted(b, n, steps, strong, held, inCoroutine) && b.live
    requires c.live && c.dropped == b.dropped && c.Total() + 1 == b.Total() && Numbered(c)
        && (c.refusals == 0 ==> c.lost == 0)
    ensures Counted(c.Noted(), n - 1, steps + [false], n != 1, held && n != 1, inCoroutine)
    ensures c.Noted() == c.(dropped := b.dropped || n == 1)
  {
    assert UnfoldCount(0) && UnfoldNumbers(0);
    StepTally(steps, false);
  }

  /** Nothing else counts. */
  lemma CountedSame(b: Book, c: Book, n: int, steps: seq<bool>, strong: bool, held: bool, inCoroutine: bool)
    requires Counted(b, n, steps, strong, held, inCoroutine) && b.live
    requires c.live && c.dropped == b.dropped && c.Total() == b.Total() && Numbered(c)
        && (c.refusals == 0 ==> c.lost == 0)
    ensures Counted(c, n, steps, strong, held, inCoroutine)
  {
    assert UnfoldCount(0) && UnfoldNumbers(0);
  }

  lemma CountedClosed(b: Book, steps: seq<bool>, inCoroutine: bool, n0: int, steps0: seq<bool>, strong0: bool,
                      held0: bool)
    requires Counted(b, n0, steps0, strong0, held0, inCoroutine) && b.live && b.closing && b.requests == map[]
    ensures Counted(b.(live := false, reading := 0, dropped := true), 0, steps, false, false, inCoroutine)
  {
    assert UnfoldCount(0) && UnfoldNumbers(0);
  }

  lemma NumberedSame(b: Book, c: Book)
    requires Numbered(b) && c.requests == b.requests && c.submitted == b.submitted
    ensures Numbered(c)
  {
    assert UnfoldCount(0) && UnfoldNumbers(0);
  }

  lemma NumberedEnter(b: Book, r: Request)
    requires Numbered(b)
    ensures var c := Submitted(b, r, true); Numbered(c) && |c.requests| == |b.requests| + 1
  {
    assert UnfoldCount(0) && UnfoldNumbers(0);
    assert b.requests[b.submitted := r].Keys == b.requests.Keys + {b.submitted};
  }

  lemma NumberedLeave(b: Book, id: nat)
    requires Numbered(b) && id in b.requests
    ensures var c := b.(requests := b.requests - {id}); Numbered(c) && |c.requests| == |b.requests| - 1
  {
    assert UnfoldCount(0) && UnfoldNumbers(0);
    assert (b.requests - {id}).Keys == b.requests.Keys - {id};
  }

  lemma NumberedAgain(b: Book, id: nat, r: Request)
    requires Numbered(b) && id in b.requests
    ensures var c := b.(requests := b.requests[id := r]); Numbered(c) && |c.requests| == |b.requests|
  {
    assert UnfoldCount(0) && UnfoldNumbers(0);
    assert b.requests[id := r].Keys == b.requests.Keys;
  }
}
