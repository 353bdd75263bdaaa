/** The main loop with any number of stream handles on one registry, and other users of that registry. */
module LifetimeLoop {
  import opened LifetimeModel
  import opened Lifetime
  import opened Unfolding

  /** Handles are numbered in the order of their creation. */
  datatype Delivery =
    | Create(inCoroutine: bool)
    | To(n: nat, event: Event)
    | OtherTakes          // somebody else refs something
    | OtherGives(k: int)  // and gives a slot back

  function Created(ds: seq<Delivery>): nat {
    if ds == [] then 0 else Created(ds[..|ds| - 1]) + if ds[|ds| - 1].Create? then 1 else 0
  }

  /** What has been delivered to handle n since its creation. */
  function EventsTo(ds: seq<Delivery>, n: nat): seq<Event> {
    if ds == [] then []
    else
      var init, d := ds[..|ds| - 1], ds[|ds| - 1];
      EventsTo(init, n) + if d.To? && d.n == n && n < Created(init) then [d.event] else []
  }

  /** Each delivery reaches the handle with its number, if that has been created, and nobody else. */
  lemma DeliveredTo(ds: seq<Delivery>, d: Delivery, n: nat)
    ensures Created([]) == 0 && EventsTo([], n) == []
    ensures Created(ds + [d]) == Created(ds) + if d.Create? then 1 else 0
    ensures d.To? && d.n == n && n < Created(ds) ==> EventsTo(ds + [d], n) == EventsTo(ds, n) + [d.event]
    ensures !(d.To? && d.n == n && n < Created(ds)) ==> EventsTo(ds + [d], n) == EventsTo(ds, n)
  {
    assert (ds + [d])[..|ds|] == ds;
  }

  /** What becomes of the handles, handle by handle. */
  ghost function Books(ds: seq<Delivery>): seq<Book> {
    if ds == [] then [] else NextBooks(Books(ds[..|ds| - 1]), ds[|ds| - 1])
  }

  ghost function NextBooks(bs: seq<Book>, d: Delivery): seq<Book> {
    match d
    case Create(_) => bs + [OPENED]
    case To(n, e) => if n < |bs| then bs[n := Delivered(bs[n], e)] else bs
    case OtherTakes => bs
    case OtherGives(_) => bs
  }

  lemma {:induction false} NotYetCreated(ds: seq<Delivery>, n: nat)
    requires n >= Created(ds)
    ensures EventsTo(ds, n) == []
  {
    if ds != [] { NotYetCreated(ds[..|ds| - 1], n); }
  }

  /** Each handle is where its own events take it, as if it were alone. */
  lemma {:induction false} Alone(ds: seq<Delivery>)
    ensures |Books(ds)| == Created(ds)
    ensures forall i :: 0 <= i < |Books(ds)| ==> Books(ds)[i] == After(OPENED, EventsTo(ds, i))
  {
    if ds != [] {
      var init, d := ds[..|ds| - 1], ds[|ds| - 1];
      Alone(init);
      forall i | 0 <= i < |Books(ds)| ensures Books(ds)[i] == After(OPENED, EventsTo(ds, i)) {
        if i < Created(init) {
          assert ds == init + [d];
          OneMore(init, d, i);
        } else {
          NotYetCreated(init, i);
        }
      }
    }
  }

  lemma OneMore(init: seq<Delivery>, d: Delivery, n: nat)
    requires n < Created(init)
    ensures var b := After(OPENED, EventsTo(init, n));
      After(OPENED, EventsTo(init + [d], n)) == if d.To? && d.n == n then Delivered(b, d.event) else b
  {
    var es, ds := EventsTo(init, n), init + [d];
    assert ds[..|ds| - 1] == init;
    if d.To? && d.n == n {
      assert (es + [d.event])[..|es|] == es;
    } else {
      assert EventsTo(ds, n) == es;
    }
  }

  /** All handles are in order, on this registry, and are different objects. */
  ghost predicate Together(registry: Registry, streams: seq<Stream>)
    reads registry, streams, set i, c | 0 <= i < |streams| && c in streams[i].pending :: c
  {
    && registry.Valid()
    && (forall i :: 0 <= i < |streams| ==> streams[i].registry == registry && streams[i].Valid())
    && (forall i, j :: 0 <= i < j < |streams| ==> streams[i] != streams[j])
  }

  /** The requests of the handles. */
  ghost function Requests(streams: seq<Stream>): set<Context>
    reads streams
  {
    set i, c | 0 <= i < |streams| && c in streams[i].pending :: c
  }

  ghost function Seen(streams: seq<Stream>): (bs: seq<Book>)
    reads streams
    ensures |bs| == |streams| && forall i :: 0 <= i < |streams| ==> bs[i] == streams[i].Abs()
  {
    if streams == [] then [] else Seen(streams[..|streams| - 1]) + [streams[|streams| - 1].Abs()]
  }

  /** What one handle does leaves the others alone. */
  method DeliverTo(registry: Registry, streams: seq<Stream>, n: nat, e: Event)
    requires Together(registry, streams) && n < |streams|
    modifies registry, streams[n], streams[n].pending
    ensures Together(registry, streams) && Seen(streams) == NextBooks(old(Seen(streams)), To(n, e))
    ensures Seen(streams) == old(Seen(streams))[n := Delivered(old(streams[n].Abs()), e)]
    ensures forall c :: c in Requests(streams) ==> c in old(Requests(streams)) || fresh(c)
  {
    forall i | 0 <= i < |streams| ensures forall c :: c in streams[i].pending ==> c.stream == streams[i] {
      streams[i].OwnRequests();
    }
    streams[n].Deliver(e);
    forall i | 0 <= i < |streams| && i != n ensures streams[i].Valid() && streams[i].Abs() == old(streams[i].Abs()) {
      OwnApart(old(registry.slots), registry.slots, streams[i], streams[n]);
      streams[i].Undisturbed();
    }
  }

  method Add(registry: Registry, streams: seq<Stream>, inCoroutine: bool) returns (s: Stream)
    requires Together(registry, streams)
    modifies registry
    ensures fresh(s) && s.pending == {} && Together(registry, streams + [s])
    ensures Seen(streams + [s]) == old(Seen(streams)) + [OPENED]
    ensures forall c :: c in Requests(streams + [s]) ==> c in old(Requests(streams))
  {
    s := new Stream(registry, inCoroutine);
    forall i | 0 <= i < |streams| ensures streams[i].Valid() && streams[i].Abs() == old(streams[i].Abs()) {
      OwnApart(old(registry.slots), registry.slots, streams[i], s);
      streams[i].Undisturbed();
    }
  }

  /** Nor do others, who know nothing of handles. */
  method OtherRef(registry: Registry, streams: seq<Stream>) returns (r: int)
    requires Together(registry, streams)
    modifies registry
    ensures r > 0 && r !in old(registry.slots) && registry.slots == old(registry.slots)[r := Other]
    ensures Together(registry, streams) && Seen(streams) == old(Seen(streams))
  {
    r := registry.Ref(Other);
    forall i | 0 <= i < |streams| ensures streams[i].Valid() && streams[i].Abs() == old(streams[i].Abs()) {
      OwnRef(old(registry.slots), streams[i], r, Other);
      streams[i].Undisturbed();
    }
  }

  /** Others give back no slot but their own. */
  ghost function Without(slots: map<int, Owner>, k: int): (r: map<int, Owner>)
    ensures forall s :: s in r <==> s in slots && !(s == k && slots[s] == Other)
    ensures forall s :: s in r ==> r[s] == slots[s]
  {
    if k in slots && slots[k] == Other then slots - {k} else slots
  }

  method OtherUnref(registry: Registry, streams: seq<Stream>, k: int)
    requires Together(registry, streams)
    modifies registry
    ensures registry.slots == Without(old(registry.slots), k)
    ensures Together(registry, streams) && Seen(streams) == old(Seen(streams))
  {
    if k in registry.slots && registry.slots[k] == Other {
      registry.Unref(k);
      forall i | 0 <= i < |streams| ensures streams[i].Valid() && streams[i].Abs() == old(streams[i].Abs()) {
        OwnUnref(old(registry.slots), streams[i], k);
        streams[i].Undisturbed();
      }
    }
  }

  /** One delivery, to whomever. */
  method Dispatch(registry: Registry, streams: seq<Stream>, d: Delivery) returns (next: seq<Stream>)
    requires Together(registry, streams)
    modifies registry, streams, Requests(streams)
    ensures Together(registry, next) && Seen(next) == NextBooks(old(Seen(streams)), d)
    ensures match d
      case Create(_) => Seen(next) == old(Seen(streams)) + [OPENED]
      case To(n, e) => Seen(next) ==
        if n < |streams| then old(Seen(streams))[n := Delivered(old(streams[n].Abs()), e)] else old(Seen(streams))
      case OtherTakes => exists r :: r !in old(registry.slots) && registry.slots == old(registry.slots)[r := Other]
      case OtherGives(k) => registry.slots == Without(old(registry.slots), k)
    ensures streams <= next && forall i :: |streams| <= i < |next| ==> fresh(next[i])
    ensures forall c :: c in Requests(next) ==> c in old(Requests(streams)) || fresh(c)
  {
    next := streams;
    match d
    case Create(inCoroutine) =>
      var s := Add(registry, streams, inCoroutine);
      next := streams + [s];
    case To(n, e) =>
      if n < |streams| {
        DeliverTo(registry, streams, n, e);
      }
    case OtherTakes => var _ := OtherRef(registry, streams);
    case OtherGives(k) => OtherUnref(registry, streams, k);
  }

  lemma Leftovers(s: Stream, events: seq<Event>)
    requires s.Valid() && s.Abs() == After(OPENED, events) && !s.live
    ensures s.Mine() == map[] <==> !RefusedIn(OPENED, events, true)
  {
    s.AfterClose();
    OwnWhole(s.registry.slots, s);
    RunRefusals(OPENED, events);
  }

  /** Any number of handles, in any interleaving with each other and with others: each ends as if it had
      been alone, and once it is closed nothing is left of it in the registry, if and only if libuv has
      refused it no request that held a slot. */
  method MainLoop(registry: Registry, ds: seq<Delivery>) returns (streams: seq<Stream>)
    requires registry.Valid()
    modifies registry
    ensures Together(registry, streams) && |streams| == Created(ds)
    ensures forall i :: 0 <= i < |streams| ==> streams[i].Abs() == After(OPENED, EventsTo(ds, i))
    ensures forall i :: 0 <= i < |streams| && !streams[i].live ==>
      (streams[i].Mine() == map[] <==> !RefusedIn(OPENED, EventsTo(ds, i), true))
  {
    streams := [];
    assert ds[..0] == [];
    for m := 0 to |ds|
      invariant Together(registry, streams) && Seen(streams) == Books(ds[..m])
      invariant forall i :: 0 <= i < |streams| ==> fresh(streams[i])
      invariant forall c :: c in Requests(streams) ==> fresh(c)
    {
      assert ds[..m + 1][..m] == ds[..m];
      streams := Dispatch(registry, streams, ds[m]);
    }
    assert ds[..|ds|] == ds;
    Alone(ds);
    forall i | 0 <= i < |streams| && !streams[i].live
      ensures streams[i].Mine() == map[] <==> !RefusedIn(OPENED, EventsTo(ds, i), true)
    {
      Leftovers(streams[i], EventsTo(ds, i));
    }
  }
}
