/** Event dispatch: luv_emit_event and luv_acall as arithmetic on Lua stack indices. */
module LuaStack {

  /** The values that matter here; a userdata carries its environment table. */
  datatype Value =
    | Nil
    | Text(text: string)
    | Number(number: int)
    | Function(id: int)
    | Table(fields: map<string, Value>)
    | Userdata(env: map<string, Value>)

  /** What a protected call was given. */
  datatype Call = Call(callee: Value, args: seq<Value>)

  const EVENT_SOURCE: Value := Function(0)  // the global `eventSource`

  /** A lua_State: its stack, bottom first, and the calls made on it so far. */
  class State {
    var stack: seq<Value>
    var calls: seq<Call>

    constructor ()
      ensures stack == [] && calls == []
    {
      stack, calls := [], [];
    }

    /** The place in the sequence that a Lua index means: positive from the bottom, negative from the top. */
    function At(index: int): int
      reads this
    {
      if index > 0 then index - 1 else |stack| + index
    }

    /** lua_getfenv */
    method GetFenv(index: int)
      requires 0 <= At(index) < |stack|
      modifies this
      ensures calls == old(calls)
      ensures stack == old(stack) + [match old(stack[At(index)]) case Userdata(env) => Table(env) case _ => Nil]
    {
      var v := match stack[At(index)] case Userdata(env) => Table(env) case _ => Nil;
      stack := stack + [v];
    }

    /** lua_getfield, on a table */
    method GetField(index: int, name: string)
      requires 0 <= At(index) < |stack| && stack[At(index)].Table?
      modifies this
      ensures calls == old(calls)
      ensures var fields := old(stack[At(index)].fields);
        stack == old(stack) + [if name in fields then fields[name] else Nil]
    {
      var fields := stack[At(index)].fields;
      stack := stack + [if name in fields then fields[name] else Nil];
    }

    /** lua_remove */
    method Remove(index: int)
      requires 0 <= At(index) < |stack|
      modifies this
      ensures calls == old(calls)
      ensures stack == old(stack[..At(index)] + stack[At(index) + 1..])
    {
      stack := stack[..At(index)] + stack[At(index) + 1..];
    }

    /** lua_insert: the top element moves to the given place. */
    method Insert(index: int)
      requires 0 <= At(index) < |stack|
      modifies this
      ensures calls == old(calls)
      ensures stack == old(stack[..At(index)] + [stack[|stack| - 1]] + stack[At(index)..|stack| - 1])
    {
      stack := stack[..At(index)] + [stack[|stack| - 1]] + stack[At(index)..|stack| - 1];
    }

    /** lua_pop */
    method Pop(n: nat)
      requires n <= |stack|
      modifies this
      ensures calls == old(calls) && stack == old(stack)[..|old(stack)| - n]
    {
      stack := stack[..|stack| - n];
    }

    method Push(v: Value)
      modifies this
      ensures calls == old(calls) && stack == old(stack) + [v]
    {
      stack := stack + [v];
    }

    /** lua_call: function and arguments are popped; what it returns, cut or filled up to nresults
        values, is pushed. */
    method DoCall(nargs: nat, nresults: nat, returned: seq<Value>, ghost base: seq<Value>, ghost f: Value,
                  ghost args: seq<Value>)
      requires stack == base + [f] + args && |args| == nargs && |returned| == nresults
      modifies this
      ensures calls == old(calls) + [Call(f, args)] && stack == base + returned
    {
      var n := |stack| - nargs - 1;
      assert stack[n + 1..] == args && stack[..n] == base;
      calls := calls + [Call(stack[n], stack[n + 1..])];
      stack := stack[..n] + returned;
    }
  }

  /** luv_acall. Function and arguments come from the stack of c, wherever the call is made: on the main
      thread, with the event source in front. */
  method ACall(c: State, main: State, nargs: nat, nresults: nat, source: string, returned: seq<Value>,
               ghost base: seq<Value>, ghost f: Value, ghost args: seq<Value>)
    requires c.stack == base + [f] + args && |args| == nargs && |returned| == nresults
    modifies c, main
    ensures main.calls == old(main.calls) + [Call(EVENT_SOURCE, [Text(source), f] + args)]
    ensures c == main ==> main.stack == base + returned
    ensures c != main ==> c.stack == base && c.calls == old(c.calls) && main.stack == old(main.stack) + returned
  {
    if c != main {
      ghost var below := main.stack;
      main.Push(EVENT_SOURCE);
      main.Push(Text(source));
      XMove(c, main, nargs + 1, base, [f] + args);
      assert main.stack == below + [EVENT_SOURCE] + ([Text(source), f] + args);
      main.DoCall(nargs + 2, nresults, returned, below, EVENT_SOURCE, [Text(source), f] + args);
    } else {
      var offset: int := nargs + 2;
      main.Push(EVENT_SOURCE);
      main.Insert(-offset);
      assert main.stack == base + [EVENT_SOURCE, f] + args;
      main.Push(Text(source));
      main.Insert(-offset);
      assert main.stack == base + [EVENT_SOURCE] + ([Text(source), f] + args);
      main.DoCall(nargs + 2, nresults, returned, base, EVENT_SOURCE, [Text(source), f] + args);
    }
  }

  /** lua_xmove */
  method XMove(source: State, target: State, n: nat, ghost base: seq<Value>, ghost top: seq<Value>)
    requires source != target && source.stack == base + top && |top| == n
    modifies source, target
    ensures source.stack == base && source.calls == old(source.calls)
    ensures target.stack == old(target.stack) + top && target.calls == old(target.calls)
  {
    var k := |source.stack| - n;
    assert source.stack[k..] == top && source.stack[..k] == base;
    target.stack := target.stack + source.stack[k..];
    source.stack := source.stack[..k];
  }

  /** Lines 36-41 of luv_handle.c: the userdata gives way to the handler it holds for the event. */
  method FetchHandler(l: State, name: string, nargs: nat,
                      ghost base: seq<Value>, ghost env: map<string, Value>, ghost args: seq<Value>)
    requires l.stack == base + [Userdata(env)] + args && |args| == nargs
    modifies l
    ensures l.stack == base + args + [if name in env then env[name] else Nil] && l.calls == old(l.calls)
  {
    ghost var handler := if name in env then env[name] else Nil;
    l.GetFenv(-1 - nargs);
    assert l.stack == base + [Userdata(env)] + args + [Table(env)];
    l.GetField(-1, name);
    assert l.stack == base + [Userdata(env)] + args + [Table(env), handler];
    l.Remove(-2);
    assert l.stack == base + [Userdata(env)] + args + [handler];
    l.Remove(-2 - nargs);
  }

  /** luv_emit_event: userdata and arguments are consumed. A handler registered under that name is called
      through the event source, with the name, the handler and the arguments in order; without one
      nothing is called. */
  method EmitEvent(l: State, main: State, name: string, nargs: nat,
                   ghost base: seq<Value>, ghost env: map<string, Value>, ghost args: seq<Value>)
    requires l.stack == base + [Userdata(env)] + args && |args| == nargs
    modifies l, main
    ensures l.stack == base && (l != main ==> main.stack == old(main.stack) && l.calls == old(l.calls))
    ensures if name in env && env[name].Function?
      then main.calls == old(main.calls) + [Call(EVENT_SOURCE, [Text(name), env[name]] + args)]
      else main.calls == old(main.calls)
  {
    ghost var handler := if name in env then env[name] else Nil;
    FetchHandler(l, name, nargs, base, env, args);
    if !l.stack[l.At(-1)].Function? {
      l.Pop(1 + nargs);
      assert l.stack == base;
      return;
    }
    l.Insert(-1 - nargs);
    assert l.stack == base + [handler] + args;
    ACall(l, main, nargs, 0, name, [], base, handler, args);
  }
}
