/** Reference counts and registry slots of a stream handle and its requests: luv_handle_ref/unref,
    luv_io_ctx_*, luv_close/luv_on_close, luv_write, luv_shutdown and their completions. */
module Lifetime {
  import opened LifetimeModel
  import LifetimeLaws
  import opened Unfolding

  const NO_REF: int := -2  // LUA_NOREF

  /** What a slot of the Lua registry keeps alive. */
  datatype Owner =
    | HandleData(h: Stream)          // the handle's userdata (lhandle->ref)
    | Coroutine(h: Stream)           // the coroutine that created it (lhandle->threadref)
    | RequestData(ctx: Context)      // a request's data table (cbs->rdata)
    | RequestCallback(ctx: Context)  // a request's callback (cbs->rcb)
    | Other                          // anything else

  /** It is the handle's, or that of one of its requests. */
  predicate Belongs(o: Owner, h: Stream) {
    match o
    case HandleData(g) => g == h
    case Coroutine(g) => g == h
    case RequestData(c) => c.stream == h
    case RequestCallback(c) => c.stream == h
    case Other => false
  }

  /** The part of the registry that belongs to the handle ... */
  ghost function Own(slots: map<int, Owner>, h: Stream): map<int, Owner> {
    map k | k in slots && Belongs(slots[k], h) :: slots[k]
  }

  /** ... and the part that does not. */
  ghost function Foreign(slots: map<int, Owner>, h: Stream): map<int, Owner> {
    map k | k in slots && !Belongs(slots[k], h) :: slots[k]
  }

  lemma OwnRef(slots: map<int, Owner>, h: Stream, r: int, o: Owner)
    requires r !in slots
    ensures Belongs(o, h) ==> Own(slots[r := o], h) == Own(slots, h)[r := o]
    ensures Belongs(o, h) ==> Foreign(slots[r := o], h) == Foreign(slots, h)
    ensures !Belongs(o, h) ==> Own(slots[r := o], h) == Own(slots, h)
  {}

  lemma OwnUnref(slots: map<int, Owner>, h: Stream, r: int)
    requires r in slots
    ensures Belongs(slots[r], h) ==> Own(slots - {r}, h) == Own(slots, h) - {r}
    ensures Belongs(slots[r], h) ==> Foreign(slots - {r}, h) == Foreign(slots, h)
    ensures !Belongs(slots[r], h) ==> Own(slots - {r}, h) == Own(slots, h)
  {}

  /** What only changes parts that belong to h leaves those that belong to g alone. */
  lemma OwnApart(slots: map<int, Owner>, slots': map<int, Owner>, g: Stream, h: Stream)
    requires g != h && Foreign(slots, h) == Foreign(slots', h)
    ensures Own(slots, g) == Own(slots', g)
  {
    forall k ensures k in Own(slots, g) ==> k in Own(slots', g) && Own(slots', g)[k] == Own(slots, g)[k] {
      assert k in Own(slots, g) ==> k in Foreign(slots, h);
    }
    forall k ensures k in Own(slots', g) ==> k in Own(slots, g) {
      assert k in Own(slots', g) ==> k in Foreign(slots', h);
    }
  }

  lemma OwnWhole(slots: map<int, Owner>, h: Stream)
    ensures Own(slots, h) == map[] <==> Foreign(slots, h) == slots
  {
    if Foreign(slots, h) == slots {
      forall k ensures k !in Own(slots, h) { assert k in slots ==> k in Foreign(slots, h); }
    }
    if Own(slots, h) == map[] {
      forall k | k in slots ensures k in Foreign(slots, h) { assert k !in Own(slots, h); }
    }
  }

  /** luv_io_ctx_t, together with the request it is the data of. */
  class Context {
    const stream: Stream  // req->handle
    const id: nat         // the number of the request
    var rcb: int
    var rdata: int

    /** luv_io_ctx_init */
    constructor (stream: Stream, id: nat)
      ensures this.stream == stream && this.id == id && rcb == NO_REF && rdata == NO_REF
    {
      this.stream, this.id := stream, id;
      rcb, rdata := NO_REF, NO_REF;
    }

    /** Which slots it holds. */
    ghost function Held(): Request
      reads this
    {
      Request(rdata != NO_REF, rcb != NO_REF)
    }
  }

  /** The registry: luaL_ref hands out a slot that is not in use, luaL_unref gives one back. Released
      slots are used again first. */
  class Registry {
    var slots: map<int, Owner>
    var free: seq<int>
    var size: nat

    ghost predicate Valid()
      reads this
    {
      forall u {:trigger Unfold(u)} :: Unfold(u) ==>
        && (forall k :: k in slots ==> 0 < k <= size)
        && (forall k :: k in free ==> 0 < k <= size && k !in slots)
        && (forall i, j :: 0 <= i < j < |free| ==> free[i] != free[j])
    }

    constructor ()
      ensures Valid() && slots == map[]
    {
      slots, free, size := map[], [], 0;
    }

    method Ref(v: Owner) returns (r: int)
      requires Valid()
      modifies this
      ensures Valid() && r > 0 && r !in old(slots) && slots == old(slots)[r := v]
    {
      assert Unfold(0);
      if free != [] {
        r := free[0];
        assert r in free && forall k :: k in free[1..] ==> k in free && k != r;
        free := free[1..];
      } else {
        size := size + 1;
        r := size;
      }
      slots := slots[r := v];
    }

    /** Releasing LUA_NOREF does nothing. Releasing a slot twice would hand it out twice: that is the
        caller's obligation. */
    method Unref(r: int)
      requires Valid() && (r >= 0 ==> r in slots)
      modifies this
      ensures Valid() && slots == old(slots) - {r}
    {
      assert Unfold(0);
      if r >= 0 {
        slots := slots - {r};
        free := [r] + free;
      }
    }
  }

  /** The registry slots that these requests hold. */
  ghost function SlotsOf(requests: set<Context>): set<int>
    reads requests
  {
    (set c | c in requests && c.rdata != NO_REF :: c.rdata) + (set c | c in requests && c.rcb != NO_REF :: c.rcb)
  }

  /** Every request is one of the contexts, by its number. */
  ghost predicate Booked(pending: set<Context>, ids: set<nat>) {
    forall u {:trigger UnfoldRequests(u)} :: UnfoldRequests(u) ==> OneToOne(pending, ids)
  }

  ghost predicate OneToOne(pending: set<Context>, ids: set<nat>) {
    && (forall c :: c in pending ==> c.id in ids)
    && (forall c, d :: c in pending && d in pending && c.id == d.id ==> c == d)
    && (forall id :: id in ids ==> exists c :: c in pending && c.id == id)
  }

  /** What a request holds is what its context holds. */
  ghost predicate Holding(pending: set<Context>, requests: map<nat, Request>)
    reads pending
  {
    forall c :: c in pending && c.id in requests ==> requests[c.id] == c.Held()
  }

  lemma BookedFacts(pending: set<Context>, ids: set<nat>)
    requires Booked(pending, ids)
    ensures pending == {} <==> ids == {}
    ensures forall c :: c in pending ==> c.id in ids
  {
    assert UnfoldRequests(0);
    forall c | c in pending ensures ids != {} { assert c.id in ids; }
  }

  lemma BookedEnter(pending: set<Context>, requests: map<nat, Request>, c: Context)
    requires Booked(pending, requests.Keys) && Holding(pending, requests) && c !in pending && c.id !in requests
    ensures Booked(pending + {c}, requests[c.id := c.Held()].Keys)
    ensures Holding(pending + {c}, requests[c.id := c.Held()])
  {
    assert UnfoldRequests(0);
    assert requests[c.id := c.Held()].Keys == requests.Keys + {c.id};
  }

  lemma BookedLeave(pending: set<Context>, ids: set<nat>, c: Context)
    requires Booked(pending, ids) && c in pending
    ensures Booked(pending - {c}, ids - {c.id})
    ensures forall d :: d in pending && d.id == c.id ==> d == c
  {
    assert UnfoldRequests(0);
  }

  /** Every slot of the handle's is held by exactly the field its owner names, and by nothing else. */
  ghost predicate Matching(slots: map<int, Owner>, ref: int, threadref: int, pending: set<Context>,
                           lost: set<int>, h: Stream)
    reads pending
  {
    forall u {:trigger UnfoldSlots(u)} :: UnfoldSlots(u) ==> Matched(slots, ref, threadref, pending, lost, h)
  }

  ghost predicate Matched(slots: map<int, Owner>, ref: int, threadref: int, pending: set<Context>,
                          lost: set<int>, h: Stream)
    reads pending
  {
    && NO_REF !in slots
    && (ref != NO_REF ==> ref in slots && slots[ref] == HandleData(h))
    && (threadref != NO_REF ==> threadref in slots && slots[threadref] == Coroutine(h))
    && (forall c :: c in pending ==> c.stream == h)
    && (forall c :: c in pending && c.rdata != NO_REF ==> c.rdata in slots && slots[c.rdata] == RequestData(c))
    && (forall c :: c in pending && c.rcb != NO_REF ==> c.rcb in slots && slots[c.rcb] == RequestCallback(c))
    && (forall k :: k in slots ==> Owns(k, slots[k], ref, threadref, pending, lost, h))
    && (forall k :: k in lost ==> k in slots && OfNone(slots[k], pending))
  }

  ghost predicate Owns(k: int, o: Owner, ref: int, threadref: int, pending: set<Context>, lost: set<int>,
                       h: Stream)
    reads pending
  {
    match o
    case HandleData(_) => k == ref
    case Coroutine(_) => k == threadref
    case RequestData(c) => if c in pending then c.rdata == k else k in lost
    case RequestCallback(c) => if c in pending then c.rcb == k else k in lost
    case Other => false
  }

  ghost predicate OfNone(o: Owner, pending: set<Context>) {
    (o.RequestData? || o.RequestCallback?) && o.ctx !in pending
  }

  /** Nothing in the registry belongs to c. */
  ghost predicate HasNone(slots: map<int, Owner>, c: Context) {
    forall k :: k in slots ==> slots[k] != RequestData(c) && slots[k] != RequestCallback(c)
  }

  lemma MatchingFacts(slots: map<int, Owner>, ref: int, threadref: int, pending: set<Context>, lost: set<int>,
                      h: Stream)
    requires Matching(slots, ref, threadref, pending, lost, h)
    ensures Matched(slots, ref, threadref, pending, lost, h)
  {
    assert UnfoldSlots(0);
  }

  lemma MatchingOpened(h: Stream)
    ensures Matching(map[], NO_REF, NO_REF, {}, {}, h)
    ensures forall r :: r != NO_REF ==> Matching(map[r := Coroutine(h)], NO_REF, r, {}, {}, h)
  {
    assert UnfoldSlots(0);
  }

  lemma MatchingWeak(slots: map<int, Owner>, ref: int, threadref: int, pending: set<Context>, lost: set<int>,
                     h: Stream)
    requires Matching(slots, ref, threadref, pending, lost, h)
    ensures Matching(slots - {ref, threadref}, NO_REF, NO_REF, pending, lost, h)
    ensures slots - {ref} - {threadref} == slots - {ref, threadref}
  {
    assert UnfoldSlots(0);
  }

  lemma MatchingEnter(slots: map<int, Owner>, ref: int, threadref: int, pending: set<Context>, lost: set<int>,
                      h: Stream, c: Context)
    requires Matching(slots, ref, threadref, pending, lost, h) && HasNone(slots, c)
    requires c.rdata == c.rcb == NO_REF && c.stream == h
    ensures Matching(slots, ref, threadref, pending + {c}, lost, h)
  {
    assert UnfoldSlots(0);
  }

  lemma MatchingLeave(slots: map<int, Owner>, ref: int, threadref: int, pending: set<Context>, lost: set<int>,
                      h: Stream, c: Context)
    requires Matching(slots, ref, threadref, pending, lost, h) && c in pending
    ensures var rest := slots - {c.rdata, c.rcb};
      Matching(rest, ref, threadref, pending - {c}, lost, h) && HasNone(rest, c)
    ensures slots - {c.rdata} - {c.rcb} == slots - {c.rdata, c.rcb}
    ensures NO_REF !in slots && (c.rdata != NO_REF ==> c.rdata in slots) && (c.rcb != NO_REF ==> c.rcb in slots)
    ensures (c.rcb == c.rdata ==> c.rcb == NO_REF) && c.stream == h
  {
    assert UnfoldSlots(0);
  }

  lemma MatchingLose(slots: map<int, Owner>, ref: int, threadref: int, pending: set<Context>, lost: set<int>,
                     h: Stream, c: Context)
    requires Matching(slots, ref, threadref, pending, lost, h) && c in pending
    ensures Matching(slots, ref, threadref, pending - {c}, lost + Opt(c.rdata) + Opt(c.rcb), h)
    ensures c.rdata !in lost && c.rcb !in lost && (c.rdata == c.rcb ==> c.rdata == NO_REF)
  {
    assert UnfoldSlots(0);
  }

  lemma Disjoint(s: set<int>, a: int, b: int)
    requires a !in s && b !in s && (a == b ==> a == NO_REF)
    ensures |s + Opt(a) + Opt(b)| == |s| + |Opt(a)| + |Opt(b)|
  {
    assert |s + Opt(a)| == |s| + |Opt(a)|;
    assert |s + Opt(a) + Opt(b)| == |s + Opt(a)| + |Opt(b)|;
  }

  ghost function Opt(r: int): set<int> { if r == NO_REF then {} else {r} }

  class Stream {
    const registry: Registry
    const inCoroutine: bool

    // luv_handle_t
    var refCount: int
    var ref: int
    var threadref: int
    var live: bool  // lhandle->handle is not null

    // libuv's side
    var closing: bool
    var pending: set<Context>  // accepted requests that have not completed
    var readStarts: nat        // luv_read_start calls not yet matched by luv_read_stop
    var submitted: nat         // requests submitted so far

    ghost var requests: map<nat, Request>  // the pending contexts by number
    ghost var dropped: bool    // refCount has come back to zero at least once
    ghost var refusals: nat    // requests that libuv refused: their references are never dropped
    ghost var lost: set<int>   // the slots of those requests: nobody releases them
    ghost var steps: seq<bool> // references taken (true) and dropped (false) so far

    ghost predicate SlotsMatch()
      reads this, registry, pending
    {
      Matching(Mine(), ref, threadref, pending, lost, this)
    }

    /** The context holds these slots, and they keep what they should. */
    ghost predicate Stored(c: Context, data: bool, callback: bool)
      reads registry, c
    {
      && (if data then c.rdata in registry.slots && registry.slots[c.rdata] == RequestData(c) else c.rdata == NO_REF)
      && (if callback then c.rcb in registry.slots && registry.slots[c.rcb] == RequestCallback(c) else c.rcb == NO_REF)
    }

    /** Exactly one request more, with these slots. */
    twostate predicate OneMore(data: bool, callback: bool)
      reads this, registry, pending
    {
      exists c :: c in pending && c !in old(pending) && pending == old(pending) + {c} && Stored(c, data, callback)
    }

    /** The handle's own slots are the same. */
    twostate predicate SameSlots()
      reads this
    {
      ref == old(ref) && threadref == old(threadref) && dropped == old(dropped)
    }

    /** Steps have been added, not taken back. */
    twostate predicate Onward()
      reads this
    {
      old(steps) <= steps
    }

    /** What belongs to the handle in the registry, and what does not. */
    ghost function Mine(): map<int, Owner>
      reads registry
    {
      Own(registry.slots, this)
    }

    ghost function Theirs(): map<int, Owner>
      reads registry
    {
      Foreign(registry.slots, this)
    }

    /** luaL_ref of something that belongs to the handle. */
    method Hold(o: Owner) returns (r: int)
      requires registry.Valid() && Belongs(o, this)
      modifies registry
      ensures registry.Valid() && r > 0 && r !in old(registry.slots)
      ensures Mine() == old(Mine())[r := o] && Theirs() == old(Theirs())
    {
      ghost var was := registry.slots;
      r := registry.Ref(o);
      OwnRef(was, this, r, o);
    }

    /** luaL_unref, likewise. */
    method LetGo(r: int)
      requires registry.Valid() && NO_REF !in Mine() && (r != NO_REF ==> r in Mine())
      modifies registry
      ensures registry.Valid() && Mine() == old(Mine()) - {r} && Theirs() == old(Theirs())
    {
      ghost var was := registry.slots;
      assert NO_REF !in was by { assert Unfold(0); }
      registry.Unref(r);
      if r in was { OwnUnref(was, this, r); } else { assert was - {r} == was; }
    }

    /** What an observer without registry sees. */
    ghost function Abs(): Book
      reads this
    {
      Book(readStarts, requests, submitted, closing, live, refusals, |lost|, dropped)
    }

    /** Every slot, every request and every reference is accounted for: see Matching, Booked, Counted. */
    ghost predicate Valid()
      reads this, registry, pending
    {
      && registry.Valid() && SlotsMatch() && Booked(pending, requests.Keys) && Holding(pending, requests)
      && Counted(Abs(), refCount, steps, ref != NO_REF, threadref != NO_REF, inCoroutine)
    }

    lemma Facts()
      requires Valid()
      ensures Numbered(Abs()) && refCount == Abs().Total() && (refCount == 0 <==> ref == NO_REF)
      ensures (threadref != NO_REF <==> inCoroutine && !dropped) && (refusals == 0 ==> |lost| == 0)
      ensures !live ==> closing && dropped && readStarts == 0 && requests == map[]
    {
      CountedFacts(Abs(), refCount, steps, ref != NO_REF, threadref != NO_REF, inCoroutine);
    }

    lemma RequestFacts()
      requires Valid()
      ensures pending == {} <==> requests == map[]
      ensures forall c :: c in pending ==> c.id in requests && requests[c.id] == c.Held()
    {
      BookedFacts(pending, requests.Keys);
      assert requests == map[] <==> requests.Keys == {};
    }

    /** luv_handle_create. Nothing in the registry belongs to the new handle yet. */
    constructor (registry: Registry, inCoroutine: bool)
      requires registry.Valid()
      modifies registry
      ensures Valid() && Abs() == OPENED && pending == {} && Theirs() == old(registry.slots)
      ensures live && !closing && readStarts == 0 && refCount == 0 && ref == NO_REF && refusals == 0 && lost == {}
      ensures steps == [] && (threadref != NO_REF <==> inCoroutine)
      ensures Foreign(old(registry.slots), this) == old(registry.slots)
      ensures this.registry == registry && this.inCoroutine == inCoroutine
    {
      this.registry, this.inCoroutine := registry, inCoroutine;
      refCount, live, closing, pending, readStarts := 0, true, false, {}, 0;
      ref, threadref := NO_REF, NO_REF;
      submitted, requests, dropped, refusals, lost, steps := 0, map[], false, 0, {}, [];
      new;
      CountedOpened(inCoroutine);
      MatchingOpened(this);
      assert Booked(pending, requests.Keys) by { assert UnfoldRequests(0); }
      assert Mine() == map[] && Theirs() == registry.slots by {
        forall k | k in registry.slots ensures !Belongs(registry.slots[k], this) { }
      }
      if inCoroutine {
        threadref := Hold(Coroutine(this));
        assert Mine() == map[threadref := Coroutine(this)];
      }
    }

    /** luv_handle_ref */
    method HandleRef()
      requires registry.Valid() && SlotsMatch() && refCount >= 0 && (refCount == 0 <==> ref == NO_REF)
      modifies this`refCount, this`ref, this`steps, registry
      ensures registry.Valid() && SlotsMatch() && refCount == old(refCount) + 1 && ref != NO_REF
      ensures steps == old(steps) + [true]
      ensures old(refCount) > 0 ==> ref == old(ref) && registry.slots == old(registry.slots)
      ensures old(refCount) == 0 ==> ref > 0 && ref !in old(registry.slots)
      ensures old(refCount) == 0 ==> Mine() == old(Mine())[ref := HandleData(this)]
      ensures Theirs() == old(Theirs())
    {
      if refCount == 0 {
        assert UnfoldSlots(0);
        ref := Hold(HandleData(this));
      }
      refCount := refCount + 1;
      steps := steps + [true];
    }

    /** The inactive branch of luv_handle_unref. */
    method MakeWeak()
      requires registry.Valid() && SlotsMatch() && ref != NO_REF
      modifies this`ref, this`threadref, this`dropped, registry
      ensures registry.Valid() && SlotsMatch() && ref == NO_REF && threadref == NO_REF && dropped
      ensures Mine() == old(Mine()) - {old(ref), old(threadref)}
      ensures Theirs() == old(Theirs())
    {
      MatchingFacts(Mine(), ref, threadref, pending, lost, this);
      MatchingWeak(Mine(), ref, threadref, pending, lost, this);
      LetGo(ref);
      if threadref != NO_REF {
        LetGo(threadref);
        threadref := NO_REF;
      }
      ref := NO_REF;
      dropped := true;
    }

    /** luv_handle_unref; its assert holds because the count is positive on entry. */
    method HandleUnref()
      requires registry.Valid() && SlotsMatch() && refCount > 0 && ref != NO_REF
      modifies this`refCount, this`ref, this`threadref, this`dropped, this`steps, registry
      ensures registry.Valid() && SlotsMatch() && refCount == old(refCount) - 1
      ensures steps == old(steps) + [false]
      ensures refCount > 0 ==>
        && ref == old(ref) && threadref == old(threadref) && dropped == old(dropped)
        && registry.slots == old(registry.slots)
      ensures refCount == 0 ==>
        && ref == NO_REF && threadref == NO_REF && dropped
        && Mine() == old(Mine()) - {old(ref), old(threadref)}
      ensures Theirs() == old(Theirs())
    {
      refCount := refCount - 1;
      assert refCount >= 0;
      if refCount == 0 {
        MakeWeak();
      }
      steps := steps + [false];
    }

    /** luv_handle_ref, where it leads from book b to book c. */
    method Take(ghost b: Book, ghost c: Book)
      requires registry.Valid() && SlotsMatch() && Holding(pending, requests) && b.live
      requires Counted(b, refCount, steps, ref != NO_REF, threadref != NO_REF, inCoroutine)
      requires c.live && c.dropped == b.dropped && c.Total() == b.Total() + 1 && Numbered(c)
          && (c.refusals == 0 ==> c.lost == 0)
      modifies this`refCount, this`ref, this`steps, registry
      ensures registry.Valid() && SlotsMatch() && Holding(pending, requests)
      ensures steps == old(steps) + [true] && refCount == old(refCount) + 1
      ensures Counted(c, refCount, steps, ref != NO_REF, threadref != NO_REF, inCoroutine)
      ensures Theirs() == old(Theirs())
      ensures old(refCount) > 0 ==> ref == old(ref)
    {
      assert allocated(pending);
      CountedFacts(b, refCount, steps, ref != NO_REF, threadref != NO_REF, inCoroutine);
      CountedTake(b, c, refCount, steps, ref != NO_REF, threadref != NO_REF, inCoroutine);
      HandleRef();
    }

    /** luv_handle_unref, where it leads from book b to book c. */
    method Give(ghost b: Book, ghost c: Book)
      requires registry.Valid() && SlotsMatch() && Holding(pending, requests) && b.live && dropped == b.dropped
      requires Counted(b, refCount, steps, ref != NO_REF, threadref != NO_REF, inCoroutine)
      requires c.live && c.dropped == b.dropped && c.Total() + 1 == b.Total() && Numbered(c)
          && (c.refusals == 0 ==> c.lost == 0)
      modifies this`refCount, this`ref, this`threadref, this`dropped, this`steps, registry
      ensures registry.Valid() && SlotsMatch() && Holding(pending, requests)
      ensures steps == old(steps) + [false] && dropped == c.Noted().dropped
      ensures Counted(c.Noted(), refCount, steps, ref != NO_REF, threadref != NO_REF, inCoroutine)
      ensures Theirs() == old(Theirs())
      ensures refCount == old(refCount) - 1 && (refCount > 0 ==> SameSlots())
    {
      assert allocated(pending);
      CountedFacts(b, refCount, steps, ref != NO_REF, threadref != NO_REF, inCoroutine);
      CountedDrop(b, c, refCount, steps, ref != NO_REF, threadref != NO_REF, inCoroutine);
      HandleUnref();
    }

    /** luv_handle_get_lua: both its asserts hold. */
    method GetLua() returns (userdata: Owner)
      requires Valid() && refCount > 0
      ensures ref in registry.slots && registry.slots[ref] == userdata == HandleData(this)
    {
      Facts();
      MatchingFacts(Mine(), ref, threadref, pending, lost, this);
      assert refCount != 0;
      assert ref != NO_REF;
      userdata := registry.slots[ref];
    }

    predicate Possible(a: Action)
      reads this
    {
      Allowed(a, live, closing, readStarts)
    }

    /** luv_io_ctx_add: the first value makes the data table and its slot. */
    method IoCtxAdd(cbs: Context)
      requires registry.Valid() && SlotsMatch() && cbs in pending && cbs.rdata == NO_REF
      modifies registry, cbs`rdata
      ensures registry.Valid() && SlotsMatch() && cbs.rdata != NO_REF && cbs.rcb == old(cbs.rcb)
      ensures Theirs() == old(Theirs())
    {
      MatchingFacts(Mine(), ref, threadref, pending, lost, this);
      cbs.rdata := Hold(RequestData(cbs));
      assert Matched(Mine(), ref, threadref, pending, lost, this);
    }

    /** luv_io_ctx_callback_add, for a function */
    method IoCtxCallbackAdd(cbs: Context)
      requires registry.Valid() && SlotsMatch() && cbs in pending && cbs.rcb == NO_REF
      modifies registry, cbs`rcb
      ensures registry.Valid() && SlotsMatch() && cbs.rcb != NO_REF && cbs.rdata == old(cbs.rdata)
      ensures Theirs() == old(Theirs())
    {
      MatchingFacts(Mine(), ref, threadref, pending, lost, this);
      cbs.rcb := Hold(RequestCallback(cbs));
      assert Matched(Mine(), ref, threadref, pending, lost, this);
    }

    method NewContext() returns (cbs: Context)
      requires SlotsMatch()
      modifies this`pending
      ensures SlotsMatch() && fresh(cbs) && cbs.id == submitted && cbs.rdata == cbs.rcb == NO_REF
      ensures pending == old(pending) + {cbs} && pending - {cbs} == old(pending)
    {
      assert allocated(pending) && allocated(registry.slots);
      cbs := new Context(this, submitted);
      MatchingEnter(Mine(), ref, threadref, pending, lost, this, cbs);
      pending := pending + {cbs};
    }

    /** The context of a request: it counts as pending from the start. */
    method Prepare(data: bool, callback: bool) returns (cbs: Context)
      requires registry.Valid() && SlotsMatch()
      modifies this`pending, registry
      ensures registry.Valid() && SlotsMatch() && fresh(cbs) && cbs.id == submitted
      ensures (cbs.rdata != NO_REF <==> data) && (cbs.rcb != NO_REF <==> callback)
      ensures pending == old(pending) + {cbs} && pending - {cbs} == old(pending)
      ensures Theirs() == old(Theirs())
    {
      cbs := NewContext();
      if data {
        IoCtxAdd(cbs);
      }
      if callback {
        IoCtxCallbackAdd(cbs);
      }
    }

    /** luv_write (data == true) and luv_shutdown (data == false), the request being accepted. */
    method Submit(data: bool, callback: bool) returns (cbs: Context)
      requires Valid() && live
      modifies this, registry
      ensures Valid() && Abs() == Submitted(old(Abs()), Request(data, callback), true)
      ensures fresh(cbs) && pending == old(pending) + {cbs} && cbs.id == old(submitted)
          && cbs.Held() == Request(data, callback)
      ensures steps == old(steps) + [true] && lost == old(lost)
      ensures Theirs() == old(Theirs())
      ensures Stored(cbs, data, callback) && cbs !in old(pending)
      ensures closing == old(closing) && readStarts == old(readStarts) && refCount == old(refCount) + 1
      ensures refusals == old(refusals) && (old(refCount) > 0 ==> SameSlots())
    {
      Facts();
      ghost var b := Abs();
      cbs := NewRequest(data, callback);
      Take(b, Submitted(b, Request(data, callback), true));
      StoredSlots(cbs);
    }

    lemma StoredSlots(c: Context)
      requires SlotsMatch() && c in pending
      ensures Stored(c, c.rdata != NO_REF, c.rcb != NO_REF)
    {
      MatchingFacts(Mine(), ref, threadref, pending, lost, this);
    }

    method NewRequest(data: bool, callback: bool) returns (cbs: Context)
      requires registry.Valid() && SlotsMatch() && Booked(pending, requests.Keys) && Holding(pending, requests)
      requires Numbered(Abs()) && live
      modifies this`pending, this`requests, this`submitted, registry
      ensures registry.Valid() && SlotsMatch() && Booked(pending, requests.Keys) && Holding(pending, requests)
      ensures Abs() == Submitted(old(Abs()), Request(data, callback), true) && Numbered(Abs())
      ensures Abs().Total() == old(Abs()).Total() + 1
      ensures fresh(cbs) && pending == old(pending) + {cbs} && cbs.id == old(submitted)
          && cbs.Held() == Request(data, callback)
      ensures Theirs() == old(Theirs())
    {
      cbs := Prepare(data, callback);
      Enter(cbs, Request(data, callback));
    }

    /** The request gets its number. */
    method Enter(cbs: Context, ghost r: Request)
      requires cbs in pending && Booked(pending - {cbs}, requests.Keys) && Holding(pending - {cbs}, requests)
      requires cbs.id == submitted && Numbered(Abs()) && cbs.Held() == r
      modifies this`requests, this`submitted
      ensures Booked(pending, requests.Keys) && Holding(pending, requests)
      ensures Abs() == Submitted(old(Abs()), r, true) && Numbered(Abs())
          && Abs().Total() == old(Abs()).Total() + if live then 1 else 0
    {
      NumberedEnter(Abs(), r);
      assert submitted !in requests by { assert UnfoldNumbers(0); }
      BookedEnter(pending - {cbs}, requests, cbs);
      assert pending - {cbs} + {cbs} == pending;
      requests := requests[submitted := r];
      submitted := submitted + 1;
    }

    /** The same when libuv refuses it: what it answers is not looked at, so that the reference and the
        slots have been taken, and nobody gives them back. */
    method SubmitInVain(data: bool, callback: bool)
      requires Valid() && live
      modifies this, registry
      ensures Valid() && Abs() == Submitted(old(Abs()), Request(data, callback), false) && pending == old(pending)
      ensures steps == old(steps) + [true] && old(lost) <= lost
      ensures Theirs() == old(Theirs())
      ensures closing == old(closing) && readStarts == old(readStarts) && refCount == old(refCount) + 1
      ensures refusals == old(refusals) + 1 && (old(refCount) > 0 ==> SameSlots())
      ensures |lost| == |old(lost)| + (if data then 1 else 0) + if callback then 1 else 0
    {
      Facts();
      ghost var b, r := Abs(), Request(data, callback);
      var cbs := Submit(data, callback);
      Forget(cbs);
      assert pending == old(pending);
      assert b.submitted !in b.requests by { assert UnfoldNumbers(0); }
      assert b.requests[b.submitted := r] - {b.submitted} == b.requests;
    }

    method Forget(cbs: Context)
      requires Valid() && live && cbs in pending
      modifies this`pending, this`requests, this`refusals, this`lost
      ensures Valid() && pending == old(pending) - {cbs} && requests == old(requests) - {cbs.id}
      ensures refusals == old(refusals) + 1 && old(lost) <= lost && |lost| == |old(lost)| + cbs.Held().Slots()
    {
      ghost var b := Abs().(requests := requests - {cbs.id});
      LeaveFacts(cbs, b);
      LoseRequest(cbs);
      refusals := refusals + 1;
      NumberedSame(b, Abs());
      CountedSame(old(Abs()), Abs(), refCount, steps, ref != NO_REF, threadref != NO_REF, inCoroutine);
    }

    method LoseRequest(cbs: Context)
      requires SlotsMatch() && Booked(pending, requests.Keys) && Holding(pending, requests) && cbs in pending
      modifies this`pending, this`requests, this`lost
      ensures SlotsMatch() && Booked(pending, requests.Keys) && Holding(pending, requests)
      ensures pending == old(pending) - {cbs} && requests == old(requests) - {cbs.id}
      ensures old(lost) <= lost && |lost| == |old(lost)| + cbs.Held().Slots()
    {
      BookedLeave(pending, requests.Keys, cbs);
      LoseSlots(cbs);
      assert (requests - {cbs.id}).Keys == requests.Keys - {cbs.id};
      requests := requests - {cbs.id};
    }

    method LoseSlots(cbs: Context)
      requires SlotsMatch() && cbs in pending
      modifies this`pending, this`lost
      ensures SlotsMatch() && pending == old(pending) - {cbs}
      ensures old(lost) <= lost && |lost| == |old(lost)| + cbs.Held().Slots()
    {
      MatchingLose(Mine(), ref, threadref, pending, lost, this, cbs);
      Disjoint(lost, cbs.rdata, cbs.rcb);
      lost := lost + Opt(cbs.rdata) + Opt(cbs.rcb);
      pending := pending - {cbs};
    }

    /** luv_read_start */
    method DoReadStart()
      requires Valid() && live
      modifies this, registry
      ensures Valid() && Abs() == Done(old(Abs()), ReadStart) && pending == old(pending)
      ensures steps == old(steps) + [true] && lost == old(lost)
      ensures Theirs() == old(Theirs())
      ensures readStarts == old(readStarts) + 1 && refCount == old(refCount) + 1 && live && closing == old(closing)
      ensures old(refCount) > 0 ==> SameSlots()
    {
      Facts();
      ghost var b := Abs();
      NumberedSame(b, Done(b, ReadStart));
      readStarts := readStarts + 1;
      Take(b, Done(b, ReadStart));
    }

    /** luv_read_stop */
    method DoReadStop()
      requires Valid() && live && readStarts > 0
      modifies this, registry
      ensures Valid() && Abs() == Done(old(Abs()), ReadStop) && pending == old(pending)
      ensures steps == old(steps) + [false] && lost == old(lost)
      ensures Theirs() == old(Theirs())
      ensures readStarts == old(readStarts) - 1 && refCount == old(refCount) - 1 && live && closing == old(closing)
      ensures refCount > 0 ==> SameSlots()
    {
      Facts();
      ghost var b := Abs();
      NumberedSame(b, b.(reading := readStarts - 1));
      readStarts := readStarts - 1;
      Give(b, b.(reading := readStarts));
    }

    /** luv_close: only the first call counts. */
    method DoClose()
      requires Valid() && live
      modifies this, registry
      ensures Valid() && Abs() == Done(old(Abs()), Close) && pending == old(pending) && lost == old(lost)
      ensures steps == old(steps) + if old(closing) then [] else [true]
      ensures old(closing) ==> unchanged(this) && unchanged(registry)
      ensures Theirs() == old(Theirs())
      ensures live && closing && readStarts == old(readStarts)
      ensures refCount == old(refCount) + (if old(closing) then 0 else 1) && (old(refCount) > 0 ==> SameSlots())
    {
      if !closing {
        StartClosing();
      }
    }

    method StartClosing()
      requires Valid() && live && !closing
      modifies this, registry
      ensures Valid() && Abs() == Done(old(Abs()), Close) && pending == old(pending) && lost == old(lost)
      ensures steps == old(steps) + [true]
      ensures Theirs() == old(Theirs())
      ensures live && closing && readStarts == old(readStarts) && refCount == old(refCount) + 1
      ensures old(refCount) > 0 ==> SameSlots()
    {
      Facts();
      ghost var b := Abs();
      NumberedSame(b, Done(b, Close));
      closing := true;
      Take(b, Done(b, Close));
    }

    /** luv_write and luv_shutdown, whatever libuv answers. */
    method DoSubmit(data: bool, callback: bool, accepted: bool)
      requires Valid() && live && (accepted ==> !closing)
      modifies this, registry
      ensures Valid() && live && Abs() == Submitted(old(Abs()), Request(data, callback), accepted) && old(lost) <= lost
      ensures old(pending) <= pending && fresh(pending - old(pending))
      ensures if accepted then OneMore(data, callback) else pending == old(pending)
      ensures closing == old(closing) && readStarts == old(readStarts) && Theirs() == old(Theirs())
      ensures refCount == old(refCount) + 1 && Onward() && (old(refCount) > 0 ==> SameSlots())
    {
      if accepted {
        var cbs := Submit(data, callback);
        assert cbs in pending && cbs !in old(pending);
      } else {
        SubmitInVain(data, callback);
      }
    }

    /** One action, unless it cannot happen. */
    method Do(a: Action)
      requires Valid() && live
      modifies this, registry
      ensures Valid() && live && Abs() == Done(old(Abs()), a) && old(lost) <= lost
      ensures old(pending) <= pending && fresh(pending - old(pending)) && (old(closing) ==> pending == old(pending))
      ensures Theirs() == old(Theirs())
      ensures closing <==> old(closing) || a == Close
      ensures (a.Write? || a.Shutdown?) && a.accepted && !old(closing) ==> OneMore(a.Write?, a.callback)
      ensures !((a.Write? || a.Shutdown?) && a.accepted && !old(closing)) ==> pending == old(pending)
      ensures readStarts == if a.ReadStart? then old(readStarts) + 1
        else if a.ReadStop? && old(readStarts) > 0 then old(readStarts) - 1 else old(readStarts)
      ensures Onward() && (old(refCount) > 0 && refCount > 0 ==> SameSlots())
    {
      if !Possible(a) {
        return;
      }
      match a
      case Write(callback, accepted) => DoSubmit(true, callback, accepted);
      case Shutdown(callback, accepted) => DoSubmit(false, callback, accepted);
      case ReadStart => DoReadStart();
      case ReadStop => DoReadStop();
      case Close => DoClose();
    }

    /** A pending request holds a reference. */
    lemma PendingCounts()
      requires Valid() && live
      ensures pending != {} ==> refCount > 0
    {
      Facts();
      RequestFacts();
      assert requests != map[] ==> requests.Keys != {};
    }

    /** A Lua callback: any sequence of actions, those that cannot happen left out. */
    method RunScript(script: seq<Action>)
      requires Valid() && live
      modifies this, registry
      ensures Valid() && live && Abs() == AllDone(old(Abs()), script) && old(lost) <= lost
      ensures old(pending) <= pending && fresh(pending - old(pending))
      ensures old(closing) ==> closing && pending == old(pending)
      ensures Theirs() == old(Theirs())
      ensures closing <==> old(closing) || Close in script
      ensures Onward() && (old(pending) != {} ==> SameSlots())
    {
      ghost var b := Abs();
      for i := 0 to |script|
        invariant Valid() && live && Abs() == AllDone(b, script[..i]) && old(lost) <= lost && Theirs() == old(Theirs())
        invariant old(pending) <= pending && fresh(pending - old(pending))
        invariant old(closing) ==> closing && pending == old(pending)
        invariant closing <==> old(closing) || Close in script[..i]
        invariant Onward() && (old(pending) != {} ==> SameSlots())
      {
        AllDoneNext(b, script, i);
        assert Close in script[..i + 1] <==> Close in script[..i] || script[i] == Close;
        PendingCounts();
        Do(script[i]);
        PendingCounts();
      }
      assert script[..|script|] == script;
    }

    /** luv_io_ctx_unref */
    method IoCtxUnref(cbs: Context)
      requires registry.Valid() && SlotsMatch() && cbs in pending
      modifies registry, cbs
      ensures registry.Valid() && SlotsMatch() && cbs.rcb == NO_REF && cbs.rdata == NO_REF
      ensures Mine() == old(Mine()) - {old(cbs.rdata), old(cbs.rcb)}
      ensures Theirs() == old(Theirs())
    {
      MatchingLeave(Mine(), ref, threadref, pending, lost, this, cbs);
      assert allocated(pending);
      LetGo(cbs.rdata);
      LetGo(cbs.rcb);
      cbs.rcb := NO_REF;
      cbs.rdata := NO_REF;
      MatchingEnter(Mine(), ref, threadref, pending - {cbs}, lost, this, cbs);
      assert pending - {cbs} + {cbs} == pending;
    }

    method ReleaseSlots(cbs: Context)
      requires Valid() && cbs in pending && live
      modifies this`requests, registry, cbs
      ensures Valid() && cbs.rcb == NO_REF && cbs.rdata == NO_REF
      ensures requests == old(requests)[cbs.id := Request(false, false)]
      ensures Mine() == old(Mine()) - {old(cbs.rdata), old(cbs.rcb)}
      ensures Theirs() == old(Theirs())
    {
      RequestFacts();
      Facts();
      BookedLeave(pending, requests.Keys, cbs);
      NumberedAgain(Abs(), cbs.id, Request(false, false));
      IoCtxUnref(cbs);
      assert requests[cbs.id := Request(false, false)].Keys == requests.Keys;
      requests := requests[cbs.id := Request(false, false)];
      CountedSame(old(Abs()), Abs(), refCount, steps, ref != NO_REF, threadref != NO_REF, inCoroutine);
    }

    /** luv_after_write and luv_after_shutdown: the request's slots are released before its callback runs,
        the reference to the handle after it. */
    method AfterRequest(cbs: Context, script: seq<Action>)
      requires Valid() && cbs in pending && live
      modifies this, registry, cbs
      ensures cbs.id in old(requests)
      ensures Valid() && Abs() == AfterCompletion(old(Abs()), cbs.id, script) && old(lost) <= lost
      ensures cbs !in pending && old(pending) - {cbs} <= pending && fresh(pending - old(pending))
      ensures Theirs() == old(Theirs())
      ensures closing <==> old(closing) || (old(cbs.rcb) != NO_REF && Close in script)
      ensures Onward() && steps != old(steps) && !steps[|steps| - 1]
      ensures refCount > 0 ==> SameSlots()
    {
      RequestOf(cbs);
      PendingCounts();
      var _ := GetLua();
      var hasCallback := cbs.rcb != NO_REF;
      ReleaseSlots(cbs);
      Answer(cbs, hasCallback, script);
    }

    /** What a completion does once the slots are released. */
    method Answer(cbs: Context, hasCallback: bool, script: seq<Action>)
      requires Valid() && cbs in pending && live && cbs.rcb == NO_REF && cbs.rdata == NO_REF
      modifies this, registry
      ensures Valid() && old(lost) <= lost && Theirs() == old(Theirs())
      ensures var called := if hasCallback then AllDone(old(Abs()), script) else old(Abs());
        Abs() == called.(requests := called.requests - {cbs.id}).Noted()
      ensures cbs !in pending && old(pending) - {cbs} <= pending && fresh(pending - old(pending))
      ensures closing <==> old(closing) || (hasCallback && Close in script)
      ensures Onward() && steps != old(steps) && !steps[|steps| - 1]
      ensures refCount > 0 ==> SameSlots()
    {
      CallBack(cbs, hasCallback, script);
      Release(cbs);
    }

    lemma RequestOf(c: Context)
      requires Valid() && c in pending
      ensures c.id in requests && requests[c.id] == c.Held()
    {
      RequestFacts();
    }

    /** The callback of a request, if it has one: it runs when the slots of the request have been given
        back, and before its reference is. */
    method CallBack(cbs: Context, hasCallback: bool, script: seq<Action>)
      requires Valid() && live && cbs in pending && cbs.rcb == NO_REF && cbs.rdata == NO_REF
      modifies this, registry
      ensures Valid() && live && Abs() == (if hasCallback then AllDone(old(Abs()), script) else old(Abs()))
      ensures old(pending) <= pending && fresh(pending - old(pending)) && old(lost) <= lost
      ensures closing <==> old(closing) || (hasCallback && Close in script)
      ensures Onward() && SameSlots() && Theirs() == old(Theirs())
    {
      if hasCallback {
        RunScript(script);
      }
    }

    method Release(cbs: Context)
      requires Valid() && cbs in pending && live && cbs.rcb == NO_REF && cbs.rdata == NO_REF
      modifies this, registry
      ensures Valid() && Abs() == old(Abs()).(requests := old(requests) - {cbs.id}).Noted()
      ensures pending == old(pending) - {cbs} && lost == old(lost) && steps == old(steps) + [false]
      ensures Theirs() == old(Theirs())
      ensures closing == old(closing) && (refCount > 0 ==> SameSlots())
    {
      ghost var c := Abs().(requests := requests - {cbs.id});
      LeaveFacts(cbs, c);
      ReleaseTo(cbs, Abs(), c);
    }

    method ReleaseTo(cbs: Context, ghost b: Book, ghost c: Book)
      requires registry.Valid() && SlotsMatch() && Booked(pending, requests.Keys) && Holding(pending, requests)
      requires Counted(b, refCount, steps, ref != NO_REF, threadref != NO_REF, inCoroutine)
      requires b.live && dropped == b.dropped && c.live && c.dropped == b.dropped && c.Total() + 1 == b.Total()
      requires Numbered(c) && (c.refusals == 0 ==> c.lost == 0)
      requires cbs in pending && cbs.rcb == NO_REF && cbs.rdata == NO_REF
      modifies this`refCount, this`ref, this`threadref, this`dropped, this`steps, this`pending, this`requests, registry
      ensures registry.Valid() && SlotsMatch() && Booked(pending, requests.Keys) && Holding(pending, requests)
      ensures Counted(c.Noted(), refCount, steps, ref != NO_REF, threadref != NO_REF, inCoroutine)
      ensures dropped == c.Noted().dropped && requests == old(requests) - {cbs.id} && pending == old(pending) - {cbs}
      ensures steps == old(steps) + [false] && Theirs() == old(Theirs())
      ensures refCount == old(refCount) - 1 && (refCount > 0 ==> SameSlots())
    {
      Give(b, c);
      Leave(cbs);
    }

    lemma LeaveFacts(cbs: Context, c: Book)
      requires Valid() && cbs in pending && live && c == Abs().(requests := requests - {cbs.id})
      ensures Numbered(c) && c.Total() + 1 == Abs().Total() && (refusals == 0 ==> |lost| == 0)
    {
      Facts();
      RequestFacts();
      NumberedLeave(Abs(), cbs.id);
    }

    method Leave(cbs: Context)
      requires SlotsMatch() && Booked(pending, requests.Keys) && Holding(pending, requests)
      requires cbs in pending && cbs.rcb == NO_REF && cbs.rdata == NO_REF
      modifies this`pending, this`requests
      ensures SlotsMatch() && Booked(pending, requests.Keys) && Holding(pending, requests)
      ensures pending == old(pending) - {cbs} && requests == old(requests) - {cbs.id}
    {
      BookedLeave(pending, requests.Keys, cbs);
      MatchingLeave(Mine(), ref, threadref, pending, lost, this, cbs);
      assert Mine() - {NO_REF, NO_REF} == Mine();
      assert (requests - {cbs.id}).Keys == requests.Keys - {cbs.id};
      pending := pending - {cbs};
      requests := requests - {cbs.id};
    }

    /** luv_on_close: whatever the count, nothing of the handle's stays in the registry, and none of the
        asserts fails. Every accepted request has completed by then. */
    method OnClose(script: seq<Action>)
      requires Valid() && live && closing && pending == {}
      modifies this, registry
      ensures Valid() && Abs() == AfterClosing(old(Abs()), script) && old(lost) <= lost
      ensures refCount == 0 && ref == NO_REF && threadref == NO_REF && pending == {}
      ensures Theirs() == old(Theirs())
      ensures !live
    {
      RunScript(script);
      Finish();
    }

    /** What luv_on_close does once its callback has run. */
    method Finish()
      requires Valid() && live && closing && pending == {}
      modifies this, registry
      ensures Valid() && Abs() == old(Abs()).(live := false, reading := 0, dropped := true) && lost == old(lost)
      ensures refCount == 0 && ref == NO_REF && threadref == NO_REF && pending == {}
      ensures Theirs() == old(Theirs())
      ensures !live
    {
      RequestFacts();
      Facts();
      DropAll();
      live, readStarts := false, 0;
      CountedClosed(old(Abs()), steps, inCoroutine, old(refCount), old(steps), old(ref) != NO_REF,
          old(threadref) != NO_REF);
    }

    method DropAll()
      requires registry.Valid() && SlotsMatch() && refCount > 0 && ref != NO_REF
      modifies this`refCount, this`ref, this`threadref, this`dropped, this`steps, registry
      ensures registry.Valid() && SlotsMatch() && refCount == 0 && ref == NO_REF && threadref == NO_REF && dropped
      ensures Theirs() == old(Theirs())
    {
      HandleUnref();
      if ref != NO_REF {
        assert refCount != 0;
        refCount := 1;
        HandleUnref();
      }
      assert ref == NO_REF;
    }

    // ---- what is in the registry

    /** What the handle has in the registry, exactly. */
    lemma Accounts()
      requires Valid()
      ensures Mine().Keys == SlotsOf(pending) + lost + Opt(ref) + Opt(threadref)
    {
      forall k ensures k in Mine() <==> k in SlotsOf(pending) + lost + Opt(ref) + Opt(threadref) { AccountFor(k); }
    }

    lemma AccountFor(k: int)
      requires SlotsMatch()
      ensures k in Mine() <==> k in SlotsOf(pending) || k in lost || k in Opt(ref) || k in Opt(threadref)
    {
      MatchingFacts(Mine(), ref, threadref, pending, lost, this);
      if k in Mine() {
        assert Owns(k, Mine()[k], ref, threadref, pending, lost, this);
      }
    }

    /** While the handle is open: once every request has completed and every read has stopped, everything
        is back to where it was if and only if libuv has refused no request. */
    lemma Baseline()
      requires Valid() && !closing && pending == {} && readStarts == 0
      ensures refCount == refusals
      ensures ref == NO_REF <==> refusals == 0
      ensures Mine().Keys == (if dropped then {} else Opt(threadref)) <==> refusals == 0
    {
      Facts();
      RequestFacts();
      if refusals == 0 {
        Accounts();
      } else {
        StrongSlot();
      }
    }

    lemma StrongSlot()
      requires SlotsMatch() && ref != NO_REF
      ensures ref in Mine() && ref != threadref
    {
      MatchingFacts(Mine(), ref, threadref, pending, lost, this);
    }

    /** After the close nothing is left, if and only if no refused request held a slot. */
    lemma AfterClose()
      requires Valid() && !live
      ensures Mine().Keys == lost
      ensures registry.slots == Theirs() <==> Abs().lost == 0
    {
      RequestFacts();
      Facts();
      Accounts();
      OwnWhole(registry.slots, this);
      assert Mine() == map[] <==> Mine().Keys == {};
      assert lost == {} <==> |lost| == 0;
    }

    /** While the handle is open, the creating coroutine is kept if and only if the count has not come
        back to zero so far. */
    lemma CoroutineHeld()
      requires Valid() && live
      ensures threadref != NO_REF <==> inCoroutine && forall n :: 0 < n <= |steps| ==> Count(steps[..n]) > 0
    {
      CountedTally(Abs(), refCount, steps, ref != NO_REF, threadref != NO_REF, inCoroutine);
      CoroutineKeptWhile(steps);
    }

    /** Whatever else happens in the registry, as long as what belongs to the handle stays, concerns it not. */
    twostate lemma Undisturbed()
      requires old(Valid()) && unchanged(this) && registry.Valid()
      requires forall c :: c in old(pending) ==> unchanged(c)
      requires Mine() == old(Mine())
      ensures Valid() && Abs() == old(Abs())
    {
      assert old(allocated(pending));
    }

    lemma OwnRequests()
      requires Valid()
      ensures forall c :: c in pending ==> c.stream == this
    {
      MatchingFacts(Mine(), ref, threadref, pending, lost, this);
    }

    // ---- whole runs

    /** One delivery by the main loop. */
    method Deliver(e: Event)
      requires Valid()
      modifies this, registry, pending
      ensures Valid() && Abs() == Delivered(old(Abs()), e) && old(lost) <= lost && Theirs() == old(Theirs())
      ensures fresh(pending - old(pending))
    {
      RequestFacts();
      Facts();
      match e
      case Lua(action) =>
        if live {
          Do(action);
        }
      case Completed(id, script) =>
        assert live && id in requests ==> exists c :: c in pending && c.id == id by { assert UnfoldRequests(0); }
        if live && exists c :: c in pending && c.id == id {
          var cbs :| cbs in pending && cbs.id == id;
          AfterRequest(cbs, script);
        }
      case ReadEvent(script) =>
        if live && readStarts > 0 {
          var _ := GetLua();
          RunScript(script);
        }
      case Closed(script) =>
        if live && closing && pending == {} {
          OnClose(script);
        }
    }

    /** Any interleaving of deliveries fails no assert, and leaves the handle with the references, requests
        and refusals that the events make. */
    method Run(events: seq<Event>)
      requires Valid()
      modifies this, registry, pending
      ensures Valid() && Abs() == After(old(Abs()), events) && old(lost) <= lost && Theirs() == old(Theirs())
    {
      ghost var contexts := pending;
      assert events[..0] == [];
      for i := 0 to |events|
        invariant Valid() && Abs() == After(old(Abs()), events[..i]) && old(lost) <= lost && Theirs() == old(Theirs())
        invariant forall c :: c in pending ==> c in contexts || fresh(c)
      {
        label Before:
        ghost var before := pending;
        assert events[..i + 1][..i] == events[..i];
        Deliver(events[i]);
        forall c | c in pending ensures c in contexts || fresh(c) {
          assert c in before || fresh@Before(c);
        }
      }
      assert events[..|events|] == events;
    }
  }

  /** The whole life of a handle: everything follows from what happens to it. Once it is closed, the
      registry is what it was before if and only if libuv has refused no request that held a slot. */
  method Life(registry: Registry, inCoroutine: bool, events: seq<Event>) returns (s: Stream)
    requires registry.Valid()
    modifies registry
    ensures s.Valid() && s.Abs() == After(OPENED, events) && s.refCount == After(OPENED, events).Total()
    ensures Numbered(After(OPENED, events)) && s.Theirs() == old(registry.slots)
    ensures s.closing <==> LifetimeLaws.PerformedIn(OPENED, events, Close)
    ensures s.live <==> !LifetimeLaws.EndsIn(OPENED, events)
    ensures !s.live ==> s.refCount == 0 && s.ref == NO_REF && s.threadref == NO_REF
    ensures !s.live ==> (registry.slots == old(registry.slots) <==> !RefusedIn(OPENED, events, true))
  {
    s := new Stream(registry, inCoroutine);
    s.Run(events);
    s.Facts();
    RunRefusals(OPENED, events);
    LifetimeLaws.ClosingLaw(OPENED, events);
    if !s.live { s.AfterClose(); }
  }

  /** A read that starts and stops lets the coroutine go, although the handle is still open. */
  method CoroutineReleasedEarly(registry: Registry) returns (s: Stream)
    requires registry.Valid()
    modifies registry
    ensures s.Valid() && s.live && !s.closing && s.inCoroutine && s.threadref == NO_REF
    ensures s.Abs() == Done(Done(OPENED, ReadStart), ReadStop)
  {
    s := new Stream(registry, true);
    s.DoReadStart();
    s.DoReadStop();
    s.Facts();
    ReadRoundTrip(OPENED);
  }
}
