/**
 * The generic I/O layer dispatcher (librbd::io::Dispatcher): an ordered map
 * from dispatch layer to the handler registered for it. A request walks the
 * registered layers in increasing order, starting after the layer it was last
 * dispatched to, until one of them claims it.
 */
module IoDispatcher {
  import opened Common

  /** A registered handler: the layer it reports and an identity for it. */
  datatype Dispatch = Dispatch(layer: nat, handler: nat)

  datatype DispatchResult = Invalid | Complete | Continue

  /** The registered layers strictly above `after`. */
  function Above(keys: set<nat>, after: int): (s: set<nat>)
    ensures s <= keys
    ensures forall k :: k in s <==> k in keys && k > after
  {
    set k | k in keys && k > after
  }

  /** The least element of a non-empty set of layers. */
  lemma {:induction false} Least(s: set<nat>) returns (m: nat)
    requires s != {}
    ensures m in s && forall k :: k in s ==> m <= k
  {
    var x :| x in s;
    if s == {x} {
      m := x;
    } else {
      var rest := s - {x};
      var least := Least(rest);
      m := if x < least then x else least;
      forall k | k in s
        ensures m <= k
      {
        if k != x {
          assert k in rest;
        }
      }
    }
  }

  /** A non-empty set of layers has a least element. */
  lemma LeastExists(s: set<nat>)
    requires s != {}
    ensures exists m :: m in s && forall k :: k in s ==> m <= k
  {
    var m := Least(s);
  }

  /**
   * std::map::upper_bound on the layer keys: the least registered layer
   * strictly above `after`, or None when `after` is at or past the last one.
   */
  function UpperBound(keys: set<nat>, after: int): (r: Option<nat>)
    ensures r.None? <==> Above(keys, after) == {}
    ensures r.Some? ==> r.value in Above(keys, after)
    ensures r.Some? ==> forall k :: k in Above(keys, after) ==> r.value <= k
  {
    var above := Above(keys, after);
    if above == {} then None
    else
      LeastExists(above);
      var m :| m in above && forall k :: k in above ==> m <= k;
      Some(m)
  }

  /** Moving past the upper bound drops exactly that layer from the layers still ahead. */
  lemma AboveShrinks(keys: set<nat>, after: int, next: nat)
    requires UpperBound(keys, after) == Some(next)
    ensures Above(keys, next) == Above(keys, after) - {next}
    ensures |Above(keys, next)| < |Above(keys, after)|
  {
    var a, b := Above(keys, after), Above(keys, next);
    assert b == a - {next};
    assert a == b + {next};
  }

  /**
   * The handlers a request starting after layer `after` is offered, in order:
   * each next registered layer up to and including the first that claims it,
   * or every layer above `after` when none does.
   */
  function Walk(m: map<nat, Dispatch>, after: int, handled: Dispatch -> bool): (w: seq<Dispatch>)
    ensures forall i :: 0 <= i < |w| - 1 ==> !handled(w[i])
    decreases |Above(m.Keys, after)|
  {
    match UpperBound(m.Keys, after)
    case None => []
    case Some(l) =>
      AboveShrinks(m.Keys, after, l);
      if handled(m[l]) then [m[l]] else [m[l]] + Walk(m, l, handled)
  }

  /** Well-formed layer maps: each handler is stored under its own layer. */
  ghost predicate LayersConsistent(m: map<nat, Dispatch>)
  {
    forall l :: l in m ==> m[l].layer == l
  }

  /** The layers of a sequence of handlers. */
  function Layers(ds: seq<Dispatch>): set<nat>
  {
    set i | 0 <= i < |ds| :: ds[i].layer
  }

  lemma LayersCons(d: Dispatch, ds: seq<Dispatch>)
    ensures Layers([d] + ds) == Layers(ds) + {d.layer}
  {
    var all := [d] + ds;
    forall x | x in Layers(all)
      ensures x in Layers(ds) + {d.layer}
    {
      var i :| 0 <= i < |all| && all[i].layer == x;
      if i > 0 { assert ds[i - 1].layer == x; }
    }
    forall x | x in Layers(ds)
      ensures x in Layers(all)
    {
      var i :| 0 <= i < |ds| && ds[i].layer == x;
      assert all[i + 1].layer == x;
    }
    assert all[0].layer == d.layer;
  }

  /** One step of Walk: offer the next layer, and go on past it unless it claims the request. */
  lemma WalkStep(m: map<nat, Dispatch>, after: int, handled: Dispatch -> bool)
    ensures UpperBound(m.Keys, after).None? ==> Walk(m, after, handled) == []
    ensures UpperBound(m.Keys, after).Some? ==>
      var l := UpperBound(m.Keys, after).value;
      l in m &&
      Walk(m, after, handled) == if handled(m[l]) then [m[l]] else [m[l]] + Walk(m, l, handled)
  {
  }

  /**
   * `w` offers registered handlers only, each stored under its own layer,
   * all above `after`, in strictly increasing layer order.
   */
  ghost predicate Ascending(m: map<nat, Dispatch>, after: int, w: seq<Dispatch>)
  {
    && (forall i :: 0 <= i < |w| ==> w[i].layer in m && m[w[i].layer] == w[i] && w[i].layer > after)
    && (forall i, j :: 0 <= i < j < |w| ==> w[i].layer < w[j].layer)
  }

  lemma {:induction false} WalkIncreasing(m: map<nat, Dispatch>, after: int, handled: Dispatch -> bool)
    requires LayersConsistent(m)
    ensures Ascending(m, after, Walk(m, after, handled))
    decreases |Above(m.Keys, after)|
  {
    match UpperBound(m.Keys, after)
    case None =>
    case Some(l) =>
      AboveShrinks(m.Keys, after, l);
      assert l in Above(m.Keys, after);
      if !handled(m[l]) {
        WalkIncreasing(m, l, handled);
        var rest := Walk(m, l, handled);
        var w := Walk(m, after, handled);
        assert w == [m[l]] + rest;
        forall i | 0 <= i < |w|
          ensures w[i].layer in m && m[w[i].layer] == w[i] && w[i].layer > after
        {
          if i > 0 { assert w[i] == rest[i - 1]; }
        }
        forall i, j | 0 <= i < j < |w|
          ensures w[i].layer < w[j].layer
        {
          assert w[j] == rest[j - 1];
          if i > 0 { assert w[i] == rest[i - 1]; }
        }
      }
  }

  /**
   * No layer is skipped: every registered layer above `after` that is not
   * beyond the last offered one was offered.
   */
  lemma {:induction false} WalkNoSkip(m: map<nat, Dispatch>, after: int, handled: Dispatch -> bool, k: nat)
    requires LayersConsistent(m)
    requires k in m && k > after
    requires Walk(m, after, handled) != []
    requires k <= Walk(m, after, handled)[|Walk(m, after, handled)| - 1].layer
    ensures exists i :: 0 <= i < |Walk(m, after, handled)| && Walk(m, after, handled)[i].layer == k
    decreases |Above(m.Keys, after)|
  {
    var w := Walk(m, after, handled);
    var l := UpperBound(m.Keys, after).value;
    assert k in Above(m.Keys, after);
    AboveShrinks(m.Keys, after, l);
    if k == l {
      assert w[0].layer == k;
    } else {
      assert !handled(m[l]);
      var rest := Walk(m, l, handled);
      assert w == [m[l]] + rest;
      WalkNoSkip(m, l, handled, k);
      var i :| 0 <= i < |rest| && rest[i].layer == k;
      assert w[i + 1].layer == k;
    }
  }

  /**
   * `w` claims the request at most at its end; and if it does not, it offered
   * the request to every layer above `after` and none claimed it.
   */
  ghost predicate StopsAtFirstHandler(m: map<nat, Dispatch>, after: int, handled: Dispatch -> bool, w: seq<Dispatch>)
  {
    && (forall i :: 0 <= i < |w| - 1 ==> !handled(w[i]))
    && (w == [] || !handled(w[|w| - 1]) ==>
          |w| == |Above(m.Keys, after)| && forall k :: k in Above(m.Keys, after) ==> !handled(m[k]))
  }

  lemma {:induction false} WalkStopsAtFirstHandler(m: map<nat, Dispatch>, after: int, handled: Dispatch -> bool)
    requires LayersConsistent(m)
    ensures StopsAtFirstHandler(m, after, handled, Walk(m, after, handled))
    decreases |Above(m.Keys, after)|
  {
    match UpperBound(m.Keys, after)
    case None =>
    case Some(l) =>
      AboveShrinks(m.Keys, after, l);
      var w := Walk(m, after, handled);
      if !handled(m[l]) {
        WalkStopsAtFirstHandler(m, l, handled);
        var rest := Walk(m, l, handled);
        assert w == [m[l]] + rest;
        forall i | 0 <= i < |w| - 1
          ensures !handled(w[i])
        {
          if i > 0 { assert w[i] == rest[i - 1]; }
        }
        if !handled(w[|w| - 1]) {
          assert rest == [] || !handled(rest[|rest| - 1]);
          forall k | k in Above(m.Keys, after)
            ensures !handled(m[k])
          {
            if k != l { assert k in Above(m.Keys, l); }
          }
        }
      } else {
        assert w == [m[l]];
      }
  }

  /**
   * The shutdown chain after the layers up to `cursor` were wrapped around
   * on_finish: every such layer once, the highest (most recently wrapped) first.
   */
  ghost predicate ShutDownChain(swapped: map<nat, Dispatch>, cursor: int, order: seq<Dispatch>)
  {
    && (forall i :: 0 <= i < |order| ==> order[i].layer in swapped && swapped[order[i].layer] == order[i] && order[i].layer <= cursor)
    && (forall i, j :: 0 <= i < j < |order| ==> order[i].layer > order[j].layer)
    && (forall k :: k in swapped && k <= cursor ==> k in Layers(order))
  }

  lemma ShutDownChainStep(swapped: map<nat, Dispatch>, cursor: int, order: seq<Dispatch>, layer: nat)
    requires LayersConsistent(swapped)
    requires ShutDownChain(swapped, cursor, order)
    requires UpperBound(swapped.Keys, cursor) == Some(layer)
    ensures ShutDownChain(swapped, layer, [swapped[layer]] + order)
  {
    assert layer in Above(swapped.Keys, cursor);
    var next := [swapped[layer]] + order;
    LayersCons(swapped[layer], order);
    forall k | k in swapped && k <= layer
      ensures k in Layers(next)
    {
      if k > cursor { assert k in Above(swapped.Keys, cursor); }
    }
    forall i, j | 0 <= i < j < |next|
      ensures next[i].layer > next[j].layer
    {
      assert next[j] == order[j - 1];
      if i > 0 { assert next[i] == order[i - 1]; }
    }
    forall i | 0 <= i < |next|
      ensures next[i].layer in swapped && swapped[next[i].layer] == next[i] && next[i].layer <= layer
    {
      if i > 0 { assert next[i] == order[i - 1]; }
    }
  }

  lemma ShutDownChainDone(swapped: map<nat, Dispatch>, cursor: int, order: seq<Dispatch>)
    requires ShutDownChain(swapped, cursor, order)
    requires UpperBound(swapped.Keys, cursor).None?
    ensures Layers(order) == swapped.Keys
  {
    forall k | k in Layers(order) ensures k in swapped {
      var i :| 0 <= i < |order| && order[i].layer == k;
    }
    forall k | k in swapped ensures k in Layers(order) {
      assert k !in Above(swapped.Keys, cursor);
    }
  }

  /** Offering the next layer extends the handlers offered so far by one step of the walk. */
  lemma OfferNext(m: map<nat, Dispatch>, start: int, after: int, offered: seq<Dispatch>, handled: Dispatch -> bool, l: nat)
    requires LayersConsistent(m)
    requires offered + Walk(m, after, handled) == Walk(m, start, handled)
    requires UpperBound(m.Keys, after) == Some(l)
    ensures l in m && m[l].layer == l
    ensures handled(m[l]) ==> offered + [m[l]] == Walk(m, start, handled)
    ensures !handled(m[l]) ==> (offered + [m[l]]) + Walk(m, l, handled) == Walk(m, start, handled)
  {
    WalkStep(m, after, handled);
    assert l in Above(m.Keys, after);
    if !handled(m[l]) {
      assert (offered + [m[l]]) + Walk(m, l, handled) == offered + ([m[l]] + Walk(m, l, handled));
    }
  }

  /** Past the last layer the walk is over. */
  lemma OfferDone(m: map<nat, Dispatch>, start: int, after: int, offered: seq<Dispatch>, handled: Dispatch -> bool)
    requires offered + Walk(m, after, handled) == Walk(m, start, handled)
    requires UpperBound(m.Keys, after).None?
    ensures offered == Walk(m, start, handled)
  {
    WalkStep(m, after, handled);
    assert offered + [] == offered;
  }

  /**
   * The status on_finish is completed with once the shutdown chain `order`
   * has run, first handler first: every link but the last drops the status
   * it receives, so the last handler's shutdown status reaches on_finish.
   */
  function ChainStatus(order: seq<Dispatch>, shutDownStatus: Dispatch -> int): (r: int)
    ensures order == [] ==> r == 0
    ensures order != [] ==> r == shutDownStatus(order[|order| - 1])
    decreases |order|
  {
    if order == [] then 0
    else if |order| == 1 then shutDownStatus(order[0])
    else ChainStatus(order[1..], shutDownStatus)
  }

  /** The parts of a dispatch spec the dispatcher reads and writes. */
  class DispatchSpec {
    var dispatchLayer: int
    var dispatchResult: DispatchResult
    /** Statuses dispatcher_ctx was completed with. */
    var dispatcherCompletions: seq<int>

    constructor (layer: int)
      ensures dispatchLayer == layer && dispatchResult == Invalid && dispatcherCompletions == []
    {
      dispatchLayer := layer;
      dispatchResult := Invalid;
      dispatcherCompletions := [];
    }
  }

  class Dispatcher {
    var dispatches: map<nat, Dispatch>

    ghost predicate Valid()
      reads this
    {
      LayersConsistent(dispatches)
    }

    constructor ()
      ensures Valid() && dispatches == map[]
    {
      dispatches := map[];
    }

    /** Registering a layer that is already present is an assertion failure. */
    method RegisterDispatch(dispatch: Dispatch)
      requires Valid()
      requires dispatch.layer !in dispatches
      modifies this
      ensures Valid()
      ensures dispatches == old(dispatches)[dispatch.layer := dispatch]
      ensures |dispatches| == |old(dispatches)| + 1
    {
      dispatches := dispatches[dispatch.layer := dispatch];
    }

    method Exists(layer: nat) returns (present: bool)
      ensures present <==> layer in dispatches
    {
      present := layer in dispatches;
    }

    /**
     * Removes one layer. An absent layer completes on_finish with 0 and leaves
     * the map alone; a present one is removed and on_finish is chained behind
     * its handler's shutdown, so it completes with the status the handler's
     * shut_down completes with (`shutDownStatus`).
     */
    method ShutDownDispatch(layer: nat, shutDownStatus: Dispatch -> int) returns (shutDown: Option<Dispatch>, status: int)
      requires Valid()
      modifies this
      ensures Valid()
      ensures dispatches == old(dispatches) - {layer}
      ensures layer in old(dispatches) ==> shutDown == Some(old(dispatches)[layer]) && status == shutDownStatus(old(dispatches)[layer])
      ensures layer !in old(dispatches) ==> shutDown == None && dispatches == old(dispatches) && status == 0
    {
      if layer !in dispatches {
        return None, 0;
      }
      var dispatch := dispatches[layer];
      dispatches := dispatches - {layer};
      shutDown := Some(dispatch);
      status := ChainStatus([dispatch], shutDownStatus);
    }

    /**
     * Swaps the whole map out and chains the shutdown of every handler in
     * front of on_finish. The chain is built walking the layers upwards, and
     * each handler's shutdown is put in front of the chain so far, so `order`
     * (the order in which the handlers are shut down) runs downwards. Each
     * link drops the status it is completed with and starts the next
     * shutdown, so on_finish sees the status of the last one, the lowest
     * layer's, or 0 when nothing was registered.
     */
    method ShutDown(shutDownStatus: Dispatch -> int) returns (order: seq<Dispatch>, status: int)
      requires Valid()
      modifies this
      ensures Valid() && dispatches == map[]
      ensures Layers(order) == old(dispatches).Keys
      ensures forall i :: 0 <= i < |order| ==> order[i].layer in old(dispatches) && old(dispatches)[order[i].layer] == order[i]
      ensures forall i, j :: 0 <= i < j < |order| ==> order[i].layer > order[j].layer
      ensures status == if order == [] then 0 else shutDownStatus(order[|order| - 1])
    {
      var swapped := dispatches;
      dispatches := map[];
      order := [];
      var cursor: int := -1;
      var next := UpperBound(swapped.Keys, cursor);
      while next.Some?
        invariant dispatches == map[]
        invariant next == UpperBound(swapped.Keys, cursor)
        invariant ShutDownChain(swapped, cursor, order)
        decreases |Above(swapped.Keys, cursor)|
      {
        var layer := next.value;
        AboveShrinks(swapped.Keys, cursor, layer);
        ShutDownChainStep(swapped, cursor, order, layer);
        order := [swapped[layer]] + order;
        cursor := layer;
        next := UpperBound(swapped.Keys, cursor);
      }
      ShutDownChainDone(swapped, cursor, order);
      status := ChainStatus(order, shutDownStatus);
    }

    /**
     * Offers the request to each registered layer above the one it was last
     * dispatched to, in increasing order, recording each layer in the spec
     * and resetting its result to INVALID before offering it; stops at the
     * first layer that claims it. If none does, the request is complete and
     * dispatcher_ctx is completed with 0. `handled` stands for send_dispatch,
     * the subclass's call into a layer, and `claimResult` for the dispatch
     * result a claiming layer leaves in the spec (what a declining layer
     * writes there is overwritten before the spec is read again).
     */
    method Send(spec: DispatchSpec, handled: Dispatch -> bool, claimResult: Dispatch -> DispatchResult) returns (offered: seq<Dispatch>)
      requires Valid()
      modifies spec
      ensures offered == Walk(dispatches, old(spec.dispatchLayer), handled)
      ensures offered != [] && handled(offered[|offered| - 1]) ==>
                && spec.dispatchLayer == offered[|offered| - 1].layer
                && spec.dispatchResult == claimResult(offered[|offered| - 1])
                && spec.dispatcherCompletions == old(spec.dispatcherCompletions)
      ensures offered == [] || !handled(offered[|offered| - 1]) ==>
                && spec.dispatchLayer == (if offered == [] then old(spec.dispatchLayer) else offered[|offered| - 1].layer)
                && spec.dispatchResult == Complete
                && spec.dispatcherCompletions == old(spec.dispatcherCompletions) + [0]
    {
      var claimed;
      offered, claimed := OfferLayers(spec, handled, claimResult);
      if claimed {
        return;
      }
      spec.dispatcherCompletions := spec.dispatcherCompletions + [0];
    }

    /**
     * The loop of send: offers the request to each next layer until one
     * claims it (`claimed`) or the layers run out.
     */
    method OfferLayers(spec: DispatchSpec, handled: Dispatch -> bool, claimResult: Dispatch -> DispatchResult)
      returns (offered: seq<Dispatch>, claimed: bool)
      requires Valid()
      modifies spec
      ensures offered == Walk(dispatches, old(spec.dispatchLayer), handled)
      ensures claimed <==> offered != [] && handled(offered[|offered| - 1])
      ensures spec.dispatchLayer == if offered == [] then old(spec.dispatchLayer) else offered[|offered| - 1].layer
      ensures spec.dispatchResult == if claimed then claimResult(offered[|offered| - 1]) else Complete
      ensures spec.dispatcherCompletions == old(spec.dispatcherCompletions)
    {
      var m := dispatches;
      var layer := spec.dispatchLayer;
      ghost var start := layer;
      offered := [];
      while true
        invariant spec.dispatchLayer == layer
        invariant offered + Walk(m, layer, handled) == Walk(m, start, handled)
        invariant offered != [] ==> !handled(offered[|offered| - 1]) && layer == offered[|offered| - 1].layer
        invariant offered == [] ==> layer == start
        invariant spec.dispatcherCompletions == old(spec.dispatcherCompletions)
        decreases |Above(m.Keys, layer)|
      {
        var next := UpperBound(m.Keys, layer);
        if next.None? {
          OfferDone(m, start, layer, offered, handled);
          spec.dispatchResult := Complete;
          claimed := false;
          return;
        }
        AboveShrinks(m.Keys, layer, next.value);
        OfferNext(m, start, layer, offered, handled, next.value);
        var dispatch := m[next.value];
        spec.dispatchResult := Invalid;
        layer := dispatch.layer;
        spec.dispatchLayer := layer;
        offered := offered + [dispatch];
        assert offered[|offered| - 1] == dispatch;
        if handled(dispatch) {
          spec.dispatchResult := claimResult(dispatch);
          assert offered == Walk(m, start, handled);
          claimed := true;
          return;
        }
      }
    }
  }

  /**
   * C_LayerIterator: a completion that, when completed, offers an operation
   * to each layer above its own position in increasing order until one takes
   * it over; past the last layer it completes its own on_finish with 0,
   * whatever status it was completed with.
   */
  class LayerIterator {
    var dispatchLayer: int
    /** Statuses on_finish was completed with. */
    var finishCompletions: seq<int>

    constructor (startLayer: int)
      ensures dispatchLayer == startLayer && finishCompletions == []
    {
      dispatchLayer := startLayer;
      finishCompletions := [];
    }

    method Complete(r: int, dispatcher: Dispatcher, execute: Dispatch -> bool) returns (offered: seq<Dispatch>)
      requires dispatcher.Valid()
      modifies this
      ensures offered == Walk(dispatcher.dispatches, old(dispatchLayer), execute)
      ensures dispatchLayer == if offered == [] then old(dispatchLayer) else offered[|offered| - 1].layer
      ensures finishCompletions ==
                if offered != [] && execute(offered[|offered| - 1]) then old(finishCompletions)
                else old(finishCompletions) + [0]
    {
      ghost var start := dispatchLayer;
      offered := [];
      while true
        invariant offered + Walk(dispatcher.dispatches, dispatchLayer, execute) == Walk(dispatcher.dispatches, start, execute)
        invariant offered != [] ==> !execute(offered[|offered| - 1]) && dispatchLayer == offered[|offered| - 1].layer
        invariant offered == [] ==> dispatchLayer == start
        invariant finishCompletions == old(finishCompletions)
        decreases |Above(dispatcher.dispatches.Keys, dispatchLayer)|
      {
        var next := UpperBound(dispatcher.dispatches.Keys, dispatchLayer);
        if next.None? {
          OfferDone(dispatcher.dispatches, start, dispatchLayer, offered, execute);
          // Context::complete(r) runs finish(r), which completes on_finish with 0
          finishCompletions := finishCompletions + [0];
          return;
        }
        AboveShrinks(dispatcher.dispatches.Keys, dispatchLayer, next.value);
        OfferNext(dispatcher.dispatches, start, dispatchLayer, offered, execute, next.value);
        var dispatch := dispatcher.dispatches[next.value];
        dispatchLayer := dispatch.layer;
        offered := offered + [dispatch];
        if execute(dispatch) {
          return;
        }
      }
    }
  }
}
