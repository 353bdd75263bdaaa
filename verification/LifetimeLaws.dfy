/** What the book of a handle means: every run comes down to single actions, completions without a
    callback and closes without a callback, and what each of these does is stated field by field. */
module LifetimeLaws {
  import opened LifetimeModel
  import opened Unfolding

  // ---- single steps

  /** The two books agree but for the references and requests that they count. */
  ghost predicate Elsewhere(b: Book, c: Book) {
    c.live == b.live && c.submitted == b.submitted && c.refusals == b.refusals && c.lost == b.lost
  }

  /** An accepted write holds its data and, if it has one, its callback; an accepted shutdown only the
      latter. */
  lemma AcceptedLaw(b: Book, a: Action)
    requires Numbered(b) && b.live && !b.closing && (a.Write? || a.Shutdown?) && a.accepted
    ensures var c := Delivered(b, Lua(a));
      && b.submitted !in b.requests && c.requests == b.requests[b.submitted := Request(a.Write?, a.callback)]
      && c.submitted == b.submitted + 1 && c.Total() == b.Total() + 1
      && c.live && !c.closing && c.reading == b.reading && c.refusals == b.refusals && c.lost == b.lost
      && c.dropped == b.dropped
  {
    NumberedEnter(b, Request(a.Write?, a.callback));
    assert UnfoldNumbers(0);
  }

  /** Once the handle is closing, libuv accepts nothing. */
  lemma ClosingAcceptsNothing(b: Book, a: Action)
    requires b.closing && (a.Write? || a.Shutdown?) && a.accepted
    ensures Delivered(b, Lua(a)) == b
  {}

  lemma ReadStartLaw(b: Book)
    requires b.live
    ensures var c := Delivered(b, Lua(ReadStart));
      && c.reading == b.reading + 1 && c.Total() == b.Total() + 1 && Elsewhere(b, c)
      && c.requests == b.requests && c.closing == b.closing && c.dropped == b.dropped
  {}

  lemma ReadStopLaw(b: Book)
    requires b.live && b.reading > 0
    ensures var c := Delivered(b, Lua(ReadStop));
      && c.reading == b.reading - 1 && c.Total() == b.Total() - 1 && Elsewhere(b, c)
      && c.requests == b.requests && c.closing == b.closing && (c.dropped <==> b.dropped || c.Total() == 0)
  {}

  /** Closing takes one reference, the first time. */
  lemma CloseLaw(b: Book)
    requires b.live
    ensures var c := Delivered(b, Lua(Close));
      && c.closing && c.Total() == b.Total() + (if b.closing then 0 else 1) && Elsewhere(b, c)
      && c.requests == b.requests && c.reading == b.reading && c.dropped == b.dropped
  {}

  /** A completion without callback: the request is gone, and its reference. */
  lemma CompletionLaw(b: Book, id: nat)
    requires b.live && id in b.requests
    ensures var c := Delivered(b, Completed(id, []));
      && c.requests == b.requests - {id} && c.Total() == b.Total() - 1 && Elsewhere(b, c)
      && c.reading == b.reading && c.closing == b.closing && (c.dropped <==> b.dropped || c.Total() == 0)
  {
    assert AllDone(b.(requests := b.requests[id := Request(false, false)]), [])
        == b.(requests := b.requests[id := Request(false, false)]);
    assert b.requests[id := Request(false, false)] - {id} == b.requests - {id};
    assert (b.requests - {id}).Keys == b.requests.Keys - {id};
  }

  /** A close without callback ends the handle, whatever it counted. */
  lemma ClosedLaw(b: Book)
    requires b.live && b.closing && b.requests == map[]
    ensures var c := Delivered(b, Closed([]));
      && !c.live && c.Total() == 0 && c.dropped && c.closing && c.reading == 0 && c.requests == map[]
      && c.submitted == b.submitted && c.refusals == b.refusals && c.lost == b.lost
  {}

  /** Nothing happens to a handle that has ended. */
  lemma DeadLaw(b: Book, e: Event)
    requires !b.live
    ensures Delivered(b, e) == b
  {}

  // ---- runs

  /** The actions of a script, as the main loop would perform them one by one. */
  ghost function Each(script: seq<Action>): (es: seq<Event>)
    ensures |es| == |script| && forall i :: 0 <= i < |script| ==> es[i] == Lua(script[i])
  {
    if script == [] then [] else Each(script[..|script| - 1]) + [Lua(script[|script| - 1])]
  }

  /** A run of two parts. */
  lemma {:induction false} Parts(b: Book, es: seq<Event>, fs: seq<Event>)
    ensures After(b, es + fs) == After(After(b, es), fs)
  {
    if fs == [] {
      assert es + fs == es;
    } else {
      var all, init := es + fs, fs[..|fs| - 1];
      assert all[..|all| - 1] == es + init;
      Parts(b, es, init);
    }
  }

  lemma OneEvent(b: Book, e: Event)
    ensures After(b, [e]) == Delivered(b, e)
  {
    assert [e][..0] == [];
  }

  lemma {:induction false} ScriptIsEach(b: Book, script: seq<Action>)
    ensures AllDone(b, script) == After(b, Each(script))
  {
    if script != [] {
      var init, a := script[..|script| - 1], script[|script| - 1];
      ScriptIsEach(b, init);
      assert Each(script)[..|Each(script)| - 1] == Each(init);
    }
  }

  /** A read callback performs exactly its actions. */
  lemma ReadMeans(b: Book, script: seq<Action>)
    requires b.live && b.reading > 0
    ensures Delivered(b, ReadEvent(script)) == After(b, Each(script))
  {
    ScriptIsEach(b, script);
  }

  /** While the callback of a request runs, the request still counts, and nothing sees that its slots are
      gone. */
  lemma {:induction false} StillCounts(b: Book, id: nat, r: Request, script: seq<Action>)
    requires Numbered(b) && id in b.requests
    ensures var d := AllDone(b, script);
      && id in d.requests && Numbered(d)
      && AllDone(b.(requests := b.requests[id := r]), script) == d.(requests := d.requests[id := r])
  {
    if script != [] {
      var init, a := script[..|script| - 1], script[|script| - 1];
      StillCounts(b, id, r, init);
      OneStillCounts(AllDone(b, init), id, r, a);
    }
  }

  lemma OneStillCounts(b: Book, id: nat, r: Request, a: Action)
    requires Numbered(b) && id in b.requests
    ensures var d := Done(b, a);
      && id in d.requests && Numbered(d)
      && Done(b.(requests := b.requests[id := r]), a) == d.(requests := d.requests[id := r])
  {
    assert UnfoldNumbers(0);
    assert b.requests[id := r].Keys == b.requests.Keys;
    if Allowed(a, b.live, b.closing, b.reading) && (a.Write? || a.Shutdown?) && a.accepted {
      var n, q := b.submitted, Request(a.Write?, a.callback);
      assert b.requests[id := r][n := q] == b.requests[n := q][id := r];
    }
  }

  /** A completion whose request has a callback performs exactly the actions of the callback, and only
      then is the request's reference dropped. */
  lemma CompletionMeans(b: Book, id: nat, script: seq<Action>)
    requires Numbered(b) && b.live && id in b.requests && b.requests[id].callback
    ensures Delivered(b, Completed(id, script)) == After(b, Each(script) + [Completed(id, [])])
  {
    var r := Request(false, false);
    var d := AllDone(b, script);
    StillCounts(b, id, r, script);
    ScriptIsEach(b, script);
    Parts(b, Each(script), [Completed(id, [])]);
    OneEvent(d, Completed(id, []));
    LiveStays(b, script);
    assert AllDone(d.(requests := d.requests[id := r]), []) == d.(requests := d.requests[id := r]);
  }

  /** Without a callback there is nothing to perform. */
  lemma CompletionSilent(b: Book, id: nat, script: seq<Action>)
    requires id in b.requests ==> !b.requests[id].callback
    ensures Delivered(b, Completed(id, script)) == Delivered(b, Completed(id, []))
  {}

  lemma {:induction false} LiveStays(b: Book, script: seq<Action>)
    ensures AllDone(b, script).live == b.live
    ensures AllDone(b, script).closing <==> b.closing || (b.live && Close in script)
    ensures b.closing ==> AllDone(b, script).requests == b.requests
  {
    if script != [] {
      LiveStays(b, script[..|script| - 1]);
      assert Close in script <==> Close in script[..|script| - 1] || script[|script| - 1] == Close;
    }
  }

  /** So does the close callback, before the handle ends. */
  lemma ClosedMeans(b: Book, script: seq<Action>)
    requires b.live && b.closing && b.requests == map[]
    ensures Delivered(b, Closed(script)) == After(b, Each(script) + [Closed([])])
  {
    LiveStays(b, script);
    ScriptIsEach(b, script);
    Parts(b, Each(script), [Closed([])]);
    OneEvent(AllDone(b, script), Closed([]));
  }

  // ---- whole runs, by the events alone

  /** On delivery of e, action a is performed by Lua code. */
  ghost predicate Performs(b: Book, e: Event, a: Action) {
    && b.live
    && match e
       case Lua(x) => x == a
       case Completed(id, script) => id in b.requests && b.requests[id].callback && a in script
       case ReadEvent(script) => b.reading > 0 && a in script
       case Closed(script) => b.closing && b.requests == map[] && a in script
  }

  /** The close callback comes. */
  ghost predicate Ends(b: Book, e: Event) { e.Closed? && b.live && b.closing && b.requests == map[] }

  ghost predicate PerformedIn(b: Book, events: seq<Event>, a: Action) {
    exists n :: 0 <= n < |events| && Performs(After(b, events[..n]), events[n], a)
  }

  ghost predicate EndsIn(b: Book, events: seq<Event>) {
    exists n :: 0 <= n < |events| && Ends(After(b, events[..n]), events[n])
  }

  lemma OneClosing(b: Book, e: Event)
    ensures Delivered(b, e).closing <==> b.closing || Performs(b, e, Close)
    ensures Delivered(b, e).live <==> b.live && !Ends(b, e)
  {
    match e
    case Lua(a) =>
    case Completed(id, script) =>
      if b.live && id in b.requests { LiveStays(b.(requests := b.requests[id := Request(false, false)]), script); }
    case ReadEvent(script) => LiveStays(b, script);
    case Closed(script) => LiveStays(b, script);
  }

  lemma PerformedSnoc(b: Book, init: seq<Event>, e: Event, a: Action)
    ensures PerformedIn(b, init + [e], a) <==> PerformedIn(b, init, a) || Performs(After(b, init), e, a)
  {
    var events := init + [e];
    Prefixes(init, e);
    assert Performs(After(b, init), e, a) ==> Performs(After(b, events[..|init|]), events[|init|], a);
    if PerformedIn(b, init, a) {
      var n :| 0 <= n < |init| && Performs(After(b, init[..n]), init[n], a);
      assert Performs(After(b, events[..n]), events[n], a);
    }
    if PerformedIn(b, events, a) {
      var n :| 0 <= n < |events| && Performs(After(b, events[..n]), events[n], a);
      if n < |init| { assert Performs(After(b, init[..n]), init[n], a); }
    }
  }

  lemma EndsSnoc(b: Book, init: seq<Event>, e: Event)
    ensures EndsIn(b, init + [e]) <==> EndsIn(b, init) || Ends(After(b, init), e)
  {
    var events := init + [e];
    Prefixes(init, e);
    assert Ends(After(b, init), e) ==> Ends(After(b, events[..|init|]), events[|init|]);
    if EndsIn(b, init) {
      var n :| 0 <= n < |init| && Ends(After(b, init[..n]), init[n]);
      assert Ends(After(b, events[..n]), events[n]);
    }
    if EndsIn(b, events) {
      var n :| 0 <= n < |events| && Ends(After(b, events[..n]), events[n]);
      if n < |init| { assert Ends(After(b, init[..n]), init[n]); }
    }
  }

  lemma Prefixes(init: seq<Event>, e: Event)
    ensures (init + [e])[..|init|] == init && (init + [e])[|init|] == e
    ensures forall n :: 0 <= n < |init| ==> (init + [e])[..n] == init[..n] && (init + [e])[n] == init[n]
  {}

  /** A handle is closing if and only if some action performed has closed it. It has ended if and only if
      a close callback has come while it was closing and no request was incomplete. */
  lemma {:induction false} ClosingLaw(b: Book, events: seq<Event>)
    ensures After(b, events).closing <==> b.closing || PerformedIn(b, events, Close)
    ensures After(b, events).live <==> b.live && !EndsIn(b, events)
  {
    if events != [] {
      var init, e := events[..|events| - 1], events[|events| - 1];
      assert events == init + [e];
      ClosingLaw(b, init);
      OneClosing(After(b, init), e);
      PerformedSnoc(b, init, e, Close);
      EndsSnoc(b, init, e);
    }
  }
}
