/** What the resolving node does once its flags are selected: run the node
    handler, or each selected flag's handler, or nothing, and decide whether
    the node or the node handler's value is the result. */
module Dispatching {
  import opened Common
  import opened Flags

  /** One handler invocation: the node handler applied to the selected
      flags, or a flag's own handler called on that flag with no argument. */
  datatype Call = NodeCall(handler: Handler, options: seq<Flag>) | FlagCall(handler: Handler, flag: Flag)

  /** How resolution ends: with the value the node handler returned from the
      given call, with the resolving node itself after the given calls, or
      with a thrown error. `N` is the node type. */
  datatype Outcome<N> = HandlerValue(call: Call) | Returned(node: N, calls: seq<Call>) | Thrown(error: CliError)

  /** Every handler invocation an outcome records, in the order they ran. */
  function Invoked<N>(r: Outcome<N>): seq<Call> {
    match r
    case HandlerValue(c) => [c]
    case Returned(_, cs) => cs
    case Thrown(_) => []
  }

  /** The calls made when there is no node handler: each selected flag that
      has a handler, in the order of the selected flags. */
  function FlagCalls(options: seq<Flag>): (cs: seq<Call>)
    ensures |cs| <= |options|
    ensures forall c :: c in cs ==> c.FlagCall? && c.flag in options && c.flag.handler == Some(c.handler)
  {
    if options == [] then []
    else
      var head := if options[0].handler.Some? then [FlagCall(options[0].handler.value, options[0])] else [];
      head + FlagCalls(options[1..])
  }

  lemma {:induction false} FlagCallsConcat(a: seq<Flag>, b: seq<Flag>)
    ensures FlagCalls(a + b) == FlagCalls(a) + FlagCalls(b)
    decreases |a|
  {
    if a == [] {
      assert a + b == b;
    } else {
      var head := if a[0].handler.Some? then [FlagCall(a[0].handler.value, a[0])] else [];
      assert (a + b)[0] == a[0] && (a + b)[1..] == a[1..] + b;
      assert FlagCalls(a + b) == head + FlagCalls(a[1..] + b);
      FlagCallsConcat(a[1..], b);
      assert FlagCalls(a) == head + FlagCalls(a[1..]);
    }
  }

  /** One selected flag contributes exactly its own handler's call, or
      nothing when it has no handler; with `FlagCallsConcat` this fixes the
      whole call list: one call per handled flag, in selection order. */
  lemma FlagCallsSingle(f: Flag)
    ensures FlagCalls([f]) == if f.handler.Some? then [FlagCall(f.handler.value, f)] else []
  {
  }

  /** `cs` is the list of calls of the handled flags `hs`: one call per
      flag, each with that flag's handler, in the same order. */
  predicate CallsOf(cs: seq<Call>, hs: seq<Flag>) {
    |cs| == |hs| &&
    forall k :: 0 <= k < |cs| ==> hs[k].handler.Some? && cs[k] == FlagCall(hs[k].handler.value, hs[k])
  }

  lemma CallsOfCons(f: Flag, cs: seq<Call>, hs: seq<Flag>)
    requires f.handler.Some? && CallsOf(cs, hs)
    ensures CallsOf([FlagCall(f.handler.value, f)] + cs, [f] + hs)
  {
    var cs', hs' := [FlagCall(f.handler.value, f)] + cs, [f] + hs;
    forall k | 1 <= k < |cs'| ensures hs'[k].handler.Some? && cs'[k] == FlagCall(hs'[k].handler.value, hs'[k]) {
      assert cs'[k] == cs[k - 1] && hs'[k] == hs[k - 1];
    }
  }

  /** The calls are exactly one per handled flag, in selection order: no
      flag is called twice, and none out of order. */
  lemma {:induction false} FlagCallsCount(options: seq<Flag>)
    ensures CallsOf(FlagCalls(options), Handled(options))
  {
    if options != [] {
      var f := options[0];
      FlagCallsCount(options[1..]);
      if f.handler.Some? {
        assert FlagCalls(options) == [FlagCall(f.handler.value, f)] + FlagCalls(options[1..]);
        assert Handled(options) == [f] + Handled(options[1..]);
        CallsOfCons(f, FlagCalls(options[1..]), Handled(options[1..]));
      } else {
        assert FlagCalls(options) == FlagCalls(options[1..]) && Handled(options) == Handled(options[1..]);
      }
    }
  }

  /** The selected flags that have a handler, in selection order. */
  function Handled(options: seq<Flag>): seq<Flag> {
    if options == [] then []
    else (if options[0].handler.Some? then [options[0]] else []) + Handled(options[1..])
  }

  /** A selected flag that has a handler gets it called. */
  lemma {:induction false} FlagCallsComplete(options: seq<Flag>, i: nat)
    requires i < |options| && options[i].handler.Some?
    ensures FlagCall(options[i].handler.value, options[i]) in FlagCalls(options)
  {
    if i > 0 {
      FlagCallsComplete(options[1..], i - 1);
    }
  }

  /** Handlers run in the order of the selected flags. */
  lemma FlagCallsOrdered(options: seq<Flag>, i: nat, j: nat)
    requires i < j < |options| && options[i].handler.Some? && options[j].handler.Some?
    ensures exists p, q :: 0 <= p < q < |FlagCalls(options)| &&
                           FlagCalls(options)[p] == FlagCall(options[i].handler.value, options[i]) &&
                           FlagCalls(options)[q] == FlagCall(options[j].handler.value, options[j])
  {
    var before, after := options[..j], options[j..];
    assert options == before + after;
    FlagCallsConcat(before, after);
    FlagCallsComplete(before, i);
    var p :| 0 <= p < |FlagCalls(before)| && FlagCalls(before)[p] == FlagCall(options[i].handler.value, options[i]);
    var q := |FlagCalls(before)|;
    assert after[0] == options[j];
    assert FlagCalls(after)[0] == FlagCall(options[j].handler.value, options[j]);
    assert FlagCalls(options)[p] == FlagCalls(before)[p];
    assert FlagCalls(options)[q] == FlagCalls(after)[0];
  }

  /** A flag without a handler contributes no call. */
  lemma {:induction false} FlagCallsSkipUnhandled(options: seq<Flag>)
    requires forall f :: f in options ==> f.handler.None?
    ensures FlagCalls(options) == []
  {
    if options != [] {
      FlagCallsSkipUnhandled(options[1..]);
    }
  }

  /** The dispatch policy. With execution off nothing runs and the node is
      the result. With execution on, a node handler is the only handler that
      runs, once, on all selected flags, and its value is the result exactly
      when return mode is on; without a node handler each selected flag's
      handler runs, in selection order, and the node is the result. */
  function Dispatch<N>(node: N, handler: Option<Handler>, execute: bool, returnValue: bool, options: seq<Flag>): (r: Outcome<N>)
    ensures !r.Thrown?
    ensures Invoked(r) == if !execute then []
                          else if handler.Some? then [NodeCall(handler.value, options)]
                          else FlagCalls(options)
    ensures r.HandlerValue? <==> execute && handler.Some? && returnValue
    ensures r.Returned? ==> r.node == node
  {
    if execute then
      if handler.Some? then
        if returnValue then HandlerValue(NodeCall(handler.value, options))
        else Returned(node, [NodeCall(handler.value, options)])
      else Returned(node, FlagCalls(options))
    else Returned(node, [])
  }
}
