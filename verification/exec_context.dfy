/** The per-vertex execution context: the decision rule of the dependency
    wait (fan-in) and the event trace of the completion signalling
    (fan-out), taken sequentially. Channels, goroutines, locks, clocks and
    logging are abstracted: a dependency channel is the finite list of
    observations the waiting vertex makes on it, the work function is its
    success result, the current time is a positive number, and the random
    order in which Go ranges over a map is an explicit enumeration of its
    keys. */
module Executor {

  /** One observation a waiting vertex makes on a dependency channel: the
      five-second heartbeat fired, or a receive returned value `d` with
      flag `ok` (`ok` is false once the channel is closed). */
  datatype Obs = Timeout | Recv(d: bool, ok: bool)

  /** How the wait on one dependency ends: the loop moves on to the next
      dependency, the whole wait aborts, or no receive happens within the
      observations (the wait goes on forever). */
  datatype Resolution = Satisfied | Failed | Waiting

  /** The outcome of `waitDependencies`: `true`, `false` naming the
      dependency that made it return, or still blocked on a dependency. */
  datatype WaitOutcome = Proceed | Abort(dep: string) | Stalled(dep: string)

  /** What `run` does, in order: call the work function, stamp the finish
      time, send and close on a dependent's channel (named by its identity),
      send and close on the vertex's own completion channel. */
  datatype Event =
    | Invoke
    | MarkFinished
    | Send(ch: nat, b: bool)
    | Close(ch: nat)
    | SendOwn(b: bool)
    | CloseOwn

  /** `execContext`. `doneChs` maps each dependent to the identity of its
      outbound channel; `depChs` maps each dependency to the observations
      made on its inbound channel. Timestamps are 0 while unset. */
  datatype ExecContext = ExecContext(
    execName: string,
    vertexName: string,
    doneChs: map<string, nat>,
    depChs: map<string, seq<Obs>>,
    visited: nat,
    finished: nat)

  /** `order` lists every key of `keys` exactly once: one possible order in
      which Go ranges over a map. */
  predicate IsEnumeration(order: seq<string>, keys: set<string>)
  {
    && (forall i, j :: 0 <= i < j < |order| ==> order[i] != order[j])
    && (forall i :: 0 <= i < |order| ==> order[i] in keys)
    && (forall k :: k in keys ==> k in order)
  }

  /** No two dependents share a channel. `run` sends on and closes every
      registered channel once, so in Go a shared channel makes the second
      send panic. */
  predicate OwnChannels(chs: map<string, nat>)
  {
    forall a, b :: a in chs && b in chs && a != b ==> chs[a] != chs[b]
  }

  /** `AddDoneCh`: register (or replace) the channel `ch` of dependent `n`;
      the other dependents keep their channels, and the dependencies and
      timestamps are unchanged. */
  function AddDoneCh(c: ExecContext, n: string, ch: nat): (r: ExecContext)
    ensures r.doneChs.Keys == c.doneChs.Keys + {n}
    ensures r.doneChs[n] == ch
    ensures forall k :: k in c.doneChs && k != n ==> r.doneChs[k] == c.doneChs[k]
    ensures r.depChs == c.depChs
    ensures r.visited == c.visited && r.finished == c.finished
  {
    c.(doneChs := c.doneChs[n := ch])
  }

  /** `AddDepCh`: register (or replace) the channel of dependency `n`;
      every other dependency and the timestamps are unchanged. */
  function AddDepCh(c: ExecContext, n: string, ch: seq<Obs>): (r: ExecContext)
    ensures r.depChs.Keys == c.depChs.Keys + {n}
    ensures r.depChs[n] == ch
    ensures forall k :: k in c.depChs && k != n ==> r.depChs[k] == c.depChs[k]
    ensures r.doneChs == c.doneChs
    ensures r.visited == c.visited && r.finished == c.finished
  {
    c.(depChs := c.depChs[n := ch])
  }

  /** `isFinished`: the finish time is set. */
  predicate IsFinished(c: ExecContext)
  {
    c.finished != 0
  }

  /** `isVisted`: the schedule time is set. */
  predicate IsVisited(c: ExecContext)
  {
    c.visited != 0
  }

  /** Index of the first receive among the observations, or their length
      when there is none. */
  function FirstRecv(obs: seq<Obs>): (j: nat)
    ensures j <= |obs|
    ensures forall i :: 0 <= i < j ==> obs[i] == Timeout
    ensures j < |obs| ==> obs[j].Recv?
  {
    if |obs| == 0 || obs[0].Recv? then 0 else 1 + FirstRecv(obs[1..])
  }

  /** The inner loop of `waitDependencies` on one channel, as written: a
      heartbeat only waits again; a receive on an open channel moves on
      whatever value it carries; a receive on a closed channel with a false
      value aborts. The first receive decides. */
  function Resolve(obs: seq<Obs>): (r: Resolution)
    ensures r == Waiting <==> FirstRecv(obs) == |obs|
    ensures r == Satisfied <==>
      FirstRecv(obs) < |obs| && (obs[FirstRecv(obs)].ok || obs[FirstRecv(obs)].d)
  {
    if |obs| == 0 then Waiting
    else
      match obs[0]
      case Timeout => Resolve(obs[1..])
      case Recv(d, ok) =>
        if ok then Satisfied
        else if !d then Failed
        else Satisfied
  }

  /** The outer loop of `waitDependencies`: dependencies are waited on one
      at a time in `order`, and the first one that does not resolve as
      satisfied ends the wait. */
  function Decide(order: seq<string>, deps: map<string, seq<Obs>>): (r: WaitOutcome)
    requires forall i :: 0 <= i < |order| ==> order[i] in deps
    ensures r == Proceed <==>
      forall i :: 0 <= i < |order| ==> Resolve(deps[order[i]]) == Satisfied
    ensures r.Abort? ==> r.dep in deps && Resolve(deps[r.dep]) == Failed
    ensures r.Stalled? ==> r.dep in deps && Resolve(deps[r.dep]) == Waiting
    ensures r != Proceed ==>
      exists i :: 0 <= i < |order| && order[i] == r.dep
        && forall p :: 0 <= p < i ==> Resolve(deps[order[p]]) == Satisfied
  {
    if |order| == 0 then Proceed
    else
      match Resolve(deps[order[0]])
      case Satisfied =>
        var rest := Decide(order[1..], deps);
        assert forall i :: 1 <= i < |order| ==> order[i] == order[1..][i - 1];
        rest
      case Failed => Abort(order[0])
      case Waiting => Stalled(order[0])
  }

  /** The inner loop of `waitDependencies`: wait on one channel until a
      receive decides, or the observations run out. */
  method WaitOne(obs: seq<Obs>) returns (r: Resolution)
    ensures r == Resolve(obs)
  {
    var j := 0;
    while j < |obs|
      invariant 0 <= j <= |obs|
      invariant Resolve(obs[j..]) == Resolve(obs)
    {
      assert obs[j..][0] == obs[j] && obs[j..][1..] == obs[j+1..];
      match obs[j] {
        case Timeout =>
          // heartbeat: log and wait again on the same channel
          j := j + 1;
        case Recv(d, ok) =>
          if ok {
            return Satisfied;
          }
          if !d {
            return Failed;
          }
          return Satisfied;
      }
    }
    // no receive among the observations: still blocked
    return Waiting;
  }

  /** `waitDependencies`, with the dependencies taken in `order`. */
  method WaitDependencies(c: ExecContext, order: seq<string>) returns (res: WaitOutcome)
    requires IsEnumeration(order, c.depChs.Keys)
    ensures res == Decide(order, c.depChs)
    ensures res == Proceed <==>
      forall k :: k in c.depChs ==> Resolve(c.depChs[k]) == Satisfied
  {
    var i := 0;
    while i < |order|
      invariant 0 <= i <= |order|
      invariant Decide(order, c.depChs) == Decide(order[i..], c.depChs)
    {
      var name := order[i];
      assert order[i..][0] == name && order[i..][1..] == order[i+1..];
      var r := WaitOne(c.depChs[name]);
      match r {
        case Satisfied =>
        case Failed => return Abort(name);
        case Waiting => return Stalled(name);
      }
      i := i + 1;
    }
    assert order[i..] == [];
    res := Proceed;
  }

  /** `n` heartbeats in a row. */
  function Timeouts(n: nat): (obs: seq<Obs>)
    ensures |obs| == n
    ensures forall i :: 0 <= i < n ==> obs[i] == Timeout
  {
    seq(n, _ => Timeout)
  }

  /** Heartbeats before the first receive change nothing. */
  lemma {:induction false} HeartbeatsTransparent(n: nat, obs: seq<Obs>)
    ensures Resolve(Timeouts(n) + obs) == Resolve(obs)
    decreases n
  {
    if n > 0 {
      var t := Timeouts(n) + obs;
      assert t[0] == Timeout;
      assert t[1..] == Timeouts(n - 1) + obs;
      HeartbeatsTransparent(n - 1, obs);
    } else {
      assert Timeouts(n) + obs == obs;
    }
  }

  /** A receive on an open channel satisfies the dependency whatever the
      received value: an upstream `false` does not stop the dependent. */
  lemma OpenReceiveSatisfies(d: bool, rest: seq<Obs>)
    ensures Resolve([Recv(d, true)] + rest) == Satisfied
  {
  }

  /** Under Go's channel semantics a receive on a closed channel yields the
      zero value `false`. */
  predicate ZeroOnClose(obs: seq<Obs>)
  {
    forall i :: 0 <= i < |obs| && obs[i].Recv? && !obs[i].ok ==> !obs[i].d
  }

  /** Under Go's channel semantics, the only thing that fails a dependency
      is a first receive that finds its channel closed. */
  lemma FailedOnlyOnClose(obs: seq<Obs>)
    requires ZeroOnClose(obs)
    ensures Resolve(obs) == Failed <==>
      FirstRecv(obs) < |obs| && !obs[FirstRecv(obs)].ok
  {
  }

  /** A dependency that fails ends the wait with its name, whatever the
      dependencies after it would have shown. */
  lemma {:induction false} FirstFailureAborts(order: seq<string>, deps: map<string, seq<Obs>>, i: nat)
    requires forall p :: 0 <= p < |order| ==> order[p] in deps
    requires i < |order|
    requires forall p :: 0 <= p < i ==> Resolve(deps[order[p]]) == Satisfied
    requires Resolve(deps[order[i]]) == Failed
    ensures Decide(order, deps) == Abort(order[i])
    decreases i
  {
    if i > 0 {
      assert Resolve(deps[order[0]]) == Satisfied;
      assert forall p :: 0 <= p < |order| - 1 ==> order[1..][p] == order[p + 1];
      FirstFailureAborts(order[1..], deps, i - 1);
    }
  }

  /** Whether the wait proceeds does not depend on the order in which the
      dependencies are taken. */
  lemma OrderIrrelevant(deps: map<string, seq<Obs>>, o1: seq<string>, o2: seq<string>)
    requires IsEnumeration(o1, deps.Keys) && IsEnumeration(o2, deps.Keys)
    ensures Decide(o1, deps) == Proceed <==> Decide(o2, deps) == Proceed
  {
    if Decide(o1, deps) == Proceed {
      assert forall k :: k in deps ==> Resolve(deps[k]) == Satisfied;
    }
    if Decide(o2, deps) == Proceed {
      assert forall k :: k in deps ==> Resolve(deps[k]) == Satisfied;
    }
  }

  /** When every dependency's channel is eventually received from, the wait
      returns, and it returns `true` exactly when every first receive has
      `ok || d`. */
  lemma ReceivingWaitReturns(order: seq<string>, deps: map<string, seq<Obs>>)
    requires IsEnumeration(order, deps.Keys)
    requires forall k :: k in deps ==> FirstRecv(deps[k]) < |deps[k]|
    ensures !Decide(order, deps).Stalled?
    ensures Decide(order, deps) == Proceed <==>
      forall k :: k in deps ==>
        deps[k][FirstRecv(deps[k])].ok || deps[k][FirstRecv(deps[k])].d
  {
    if Decide(order, deps) == Proceed {
      assert forall k :: k in deps ==> Resolve(deps[k]) == Satisfied;
    }
  }

  /** A vertex with no dependencies proceeds at once. */
  lemma NoDependenciesProceed(order: seq<string>)
    requires IsEnumeration(order, {})
    ensures Decide(order, map[]) == Proceed
  {
  }

  /** The fan-out of `run`: a send of the result on each dependent's
      channel, each followed at once by closing that channel. */
  function FanOut(chs: seq<nat>, success: bool): (t: seq<Event>)
    ensures |t| == 2 * |chs|
    ensures forall k :: 0 <= k < |t| ==> t[k].Send? || t[k].Close?
    ensures forall i :: 0 <= i < |chs| ==>
      t[2 * i] == Send(chs[i], success) && t[2 * i + 1] == Close(chs[i])
  {
    if |chs| == 0 then []
    else [Send(chs[0], success), Close(chs[0])] + FanOut(chs[1..], success)
  }

  /** The channels of the dependents, taken in `order`. */
  function ChannelsOf(order: seq<string>, doneChs: map<string, nat>): (chs: seq<nat>)
    requires forall i :: 0 <= i < |order| ==> order[i] in doneChs
    ensures |chs| == |order|
    ensures forall i :: 0 <= i < |order| ==> chs[i] == doneChs[order[i]]
  {
    seq(|order|, i requires 0 <= i < |order| => doneChs[order[i]])
  }

  /** Dependents with their own channels, taken once each, give channels
      that are taken once each. */
  lemma ChannelsDistinct(order: seq<string>, doneChs: map<string, nat>)
    requires IsEnumeration(order, doneChs.Keys)
    requires OwnChannels(doneChs)
    ensures forall i, j :: 0 <= i < j < |order| ==>
      ChannelsOf(order, doneChs)[i] != ChannelsOf(order, doneChs)[j]
  {
    var chs := ChannelsOf(order, doneChs);
    forall i, j | 0 <= i < j < |order|
      ensures chs[i] != chs[j]
    {
      assert order[i] != order[j];
    }
  }

  /** The finished context and the trace of one `run`. */
  datatype Completion = Completion(ctx: ExecContext, trace: seq<Event>)

  /** `run`, with the work function's result `success`, the time `now` the
      work function returned and the dependents taken in `order`. Every
      dependent has its own channel (`run` would panic otherwise). */
  function Run(c: ExecContext, order: seq<string>, success: bool, now: nat): (r: Completion)
    requires IsEnumeration(order, c.doneChs.Keys)
    requires OwnChannels(c.doneChs)
    requires now > 0
    ensures IsFinished(r.ctx) && r.ctx.finished == now
    ensures r.ctx.(finished := c.finished) == c
    ensures |r.trace| == 2 * |order| + 4
    ensures r.trace[0] == Invoke && r.trace[1] == MarkFinished
    ensures forall i :: 1 <= i < |r.trace| ==> r.trace[i] != Invoke
    ensures forall i :: 0 <= i < |order| ==>
      && r.trace[2 + 2 * i] == Send(c.doneChs[order[i]], success)
      && r.trace[3 + 2 * i] == Close(c.doneChs[order[i]])
    ensures r.trace[|r.trace| - 2] == SendOwn(success) && r.trace[|r.trace| - 1] == CloseOwn
  {
    var t := [Invoke, MarkFinished] + FanOut(ChannelsOf(order, c.doneChs), success)
      + [SendOwn(success), CloseOwn];
    Completion(c.(finished := now), t)
  }

  /** `run` stamps only the finish time: afterwards `isFinished` holds and
      `isVisted` answers as before. */
  lemma RunStampsFinish(c: ExecContext, order: seq<string>, success: bool, now: nat)
    requires IsEnumeration(order, c.doneChs.Keys)
    requires OwnChannels(c.doneChs)
    requires now > 0
    ensures IsFinished(Run(c, order, success, now).ctx)
    ensures IsVisited(Run(c, order, success, now).ctx) <==> IsVisited(c)
  {
  }

  /** Registering a dependent or a dependency leaves `isFinished` and
      `isVisted` as they were: only `run` and the scheduler set the
      timestamps. */
  lemma RegistrationKeepsProbes(c: ExecContext, n: string, ch: nat, obs: seq<Obs>)
    ensures IsFinished(AddDoneCh(c, n, ch)) <==> IsFinished(c)
    ensures IsVisited(AddDoneCh(c, n, ch)) <==> IsVisited(c)
    ensures IsFinished(AddDepCh(c, n, obs)) <==> IsFinished(c)
    ensures IsVisited(AddDepCh(c, n, obs)) <==> IsVisited(c)
  {
  }

  /** The events of a trace that touch channel `ch`, as its receiver sees
      them: the sent value on the open channel, then the zero value on the
      closed one. */
  function Delivered(t: seq<Event>, ch: nat): (obs: seq<Obs>)
  {
    if |t| == 0 then []
    else
      var head :=
        match t[0]
        case Send(to, b) => if to == ch then [Recv(b, true)] else []
        case Close(to) => if to == ch then [Recv(false, false)] else []
        case _ => [];
      head + Delivered(t[1..], ch)
  }

  /** What a trace delivers is what its parts deliver. */
  lemma {:induction false} DeliveredConcat(a: seq<Event>, b: seq<Event>, ch: nat)
    ensures Delivered(a + b, ch) == Delivered(a, ch) + Delivered(b, ch)
    decreases |a|
  {
    if |a| > 0 {
      assert (a + b)[0] == a[0];
      assert (a + b)[1..] == a[1..] + b;
      DeliveredConcat(a[1..], b, ch);
      var head := Delivered([a[0]], ch);
      assert Delivered([a[0]], ch) == head + Delivered([], ch);
      assert Delivered(a, ch) == head + Delivered(a[1..], ch);
      assert Delivered(a + b, ch) == head + Delivered(a[1..] + b, ch);
    } else {
      assert a + b == b;
    }
  }

  /** Each channel listed once in the fan-out receives the result once and
      is then closed; a channel not listed receives nothing. */
  lemma {:induction false} DeliveredFanOut(chs: seq<nat>, success: bool, ch: nat)
    requires forall i, j :: 0 <= i < j < |chs| ==> chs[i] != chs[j]
    ensures ch in chs ==> Delivered(FanOut(chs, success), ch) == [Recv(success, true), Recv(false, false)]
    ensures ch !in chs ==> Delivered(FanOut(chs, success), ch) == []
    decreases |chs|
  {
    if |chs| > 0 {
      var head := [Send(chs[0], success), Close(chs[0])];
      var rest := FanOut(chs[1..], success);
      DeliveredConcat(head, rest, ch);
      assert head[1..] == [Close(chs[0])];
      DeliveredFanOut(chs[1..], success, ch);
      if ch == chs[0] {
        assert ch !in chs[1..];
      } else {
        assert ch in chs ==> ch in chs[1..];
      }
    }
  }

  /** The events around the fan-out carry nothing to a dependent channel. */
  lemma DeliveredInside(fan: seq<Event>, success: bool, ch: nat)
    ensures Delivered([Invoke, MarkFinished] + fan + [SendOwn(success), CloseOwn], ch)
         == Delivered(fan, ch)
  {
    DeliveredConcat([Invoke, MarkFinished], fan, ch);
    DeliveredConcat([Invoke, MarkFinished] + fan, [SendOwn(success), CloseOwn], ch);
    assert [Invoke, MarkFinished][1..] == [MarkFinished];
    assert Delivered([MarkFinished], ch) == [];
    assert Delivered([Invoke, MarkFinished], ch) == [];
    assert [SendOwn(success), CloseOwn][1..] == [CloseOwn];
    assert Delivered([CloseOwn], ch) == [];
    assert Delivered([SendOwn(success), CloseOwn], ch) == [];
  }

  /** A registered dependent's channel is among the channels of any
      enumeration of the dependents. */
  lemma ChannelListed(order: seq<string>, doneChs: map<string, nat>, n: string)
    requires IsEnumeration(order, doneChs.Keys)
    requires n in doneChs
    ensures doneChs[n] in ChannelsOf(order, doneChs)
  {
    assert n in order;
    var i :| 0 <= i < |order| && order[i] == n;
    assert ChannelsOf(order, doneChs)[i] == doneChs[n];
  }

  /** What the trace of `run` delivers on a channel is what its fan-out
      delivers there: the work function, the timestamp and the own
      completion channel carry nothing to dependents. */
  lemma RunDeliversFanOut(c: ExecContext, order: seq<string>, success: bool, now: nat, ch: nat)
    requires IsEnumeration(order, c.doneChs.Keys)
    requires OwnChannels(c.doneChs)
    requires now > 0
    ensures Delivered(Run(c, order, success, now).trace, ch)
         == Delivered(FanOut(ChannelsOf(order, c.doneChs), success), ch)
  {
    DeliveredInside(FanOut(ChannelsOf(order, c.doneChs), success), success, ch);
  }

  /** Every dependent receives the vertex's result exactly once on its own
      channel and then sees that channel closed. */
  lemma RunDelivers(c: ExecContext, order: seq<string>, success: bool, now: nat, n: string)
    requires IsEnumeration(order, c.doneChs.Keys)
    requires OwnChannels(c.doneChs)
    requires now > 0
    requires n in c.doneChs
    ensures Delivered(Run(c, order, success, now).trace, c.doneChs[n])
         == [Recv(success, true), Recv(false, false)]
  {
    var chs := ChannelsOf(order, c.doneChs);
    ChannelListed(order, c.doneChs, n);
    ChannelsDistinct(order, c.doneChs);
    RunDeliversFanOut(c, order, success, now, c.doneChs[n]);
    DeliveredFanOut(chs, success, c.doneChs[n]);
  }

  /** A channel that is not registered gets nothing from `run`: whoever
      waits on it only ever sees heartbeats. */
  lemma RunSkipsUnregistered(c: ExecContext, order: seq<string>, success: bool, now: nat, ch: nat, beats: nat)
    requires IsEnumeration(order, c.doneChs.Keys)
    requires OwnChannels(c.doneChs)
    requires now > 0
    requires ch !in c.doneChs.Values
    ensures Delivered(Run(c, order, success, now).trace, ch) == []
    ensures Resolve(Timeouts(beats) + Delivered(Run(c, order, success, now).trace, ch)) == Waiting
  {
    var chs := ChannelsOf(order, c.doneChs);
    assert ch !in chs;
    ChannelsDistinct(order, c.doneChs);
    RunDeliversFanOut(c, order, success, now, ch);
    DeliveredFanOut(chs, success, ch);
    assert Timeouts(beats) + [] == Timeouts(beats);
  }

  /** Registering a dependent again with a new channel orphans its earlier
      one: `run` never sends on it nor closes it, so a dependent still
      waiting on it waits forever. */
  lemma ReRegisterOrphans(c: ExecContext, n: string, ch: nat, order: seq<string>, success: bool, now: nat, beats: nat)
    requires n in c.doneChs && ch != c.doneChs[n]
    requires OwnChannels(c.doneChs) && OwnChannels(AddDoneCh(c, n, ch).doneChs)
    requires IsEnumeration(order, AddDoneCh(c, n, ch).doneChs.Keys)
    requires now > 0
    ensures Resolve(Timeouts(beats) + Delivered(Run(AddDoneCh(c, n, ch), order, success, now).trace, c.doneChs[n]))
         == Waiting
  {
    var r := AddDoneCh(c, n, ch);
    assert c.doneChs[n] !in r.doneChs.Values;
    RunSkipsUnregistered(r, order, success, now, c.doneChs[n], beats);
  }

  /** As written, a failed vertex does not stop its dependents: the
      dependent receives `false` on the still-open channel, after any number
      of heartbeats, and moves on. */
  lemma FailureNotPropagated(c: ExecContext, order: seq<string>, now: nat, n: string, beats: nat)
    requires IsEnumeration(order, c.doneChs.Keys)
    requires OwnChannels(c.doneChs)
    requires now > 0
    requires n in c.doneChs
    ensures Resolve(Timeouts(beats) + Delivered(Run(c, order, false, now).trace, c.doneChs[n])) == Satisfied
  {
    RunDelivers(c, order, false, now, n);
    HeartbeatsTransparent(beats, Delivered(Run(c, order, false, now).trace, c.doneChs[n]));
  }

  /** One level up: a dependent whose only dependency is a failed vertex
      still has `waitDependencies` return true. */
  lemma FailureNotPropagatedWait(c: ExecContext, order: seq<string>, now: nat, n: string, beats: nat,
                                 dep: ExecContext, up: string, depOrder: seq<string>)
    requires IsEnumeration(order, c.doneChs.Keys)
    requires OwnChannels(c.doneChs)
    requires now > 0
    requires n in c.doneChs
    requires dep.depChs == map[up := Timeouts(beats) + Delivered(Run(c, order, false, now).trace, c.doneChs[n])]
    requires IsEnumeration(depOrder, dep.depChs.Keys)
    ensures Decide(depOrder, dep.depChs) == Proceed
  {
    FailureNotPropagated(c, order, now, n, beats);
  }

  /** The inner loop as intended: the first value received decides, a
      `false` (sent, or read from a closed channel) failing the
      dependency. */
  function ResolveIntended(obs: seq<Obs>): (r: Resolution)
    ensures r == Waiting <==> FirstRecv(obs) == |obs|
    ensures r == Satisfied <==> FirstRecv(obs) < |obs| && obs[FirstRecv(obs)].d
  {
    if |obs| == 0 then Waiting
    else
      match obs[0]
      case Timeout => ResolveIntended(obs[1..])
      case Recv(d, _) => if d then Satisfied else Failed
  }

  /** Heartbeats before the first receive change nothing under the intended
      rule either. */
  lemma {:induction false} HeartbeatsTransparentIntended(n: nat, obs: seq<Obs>)
    ensures ResolveIntended(Timeouts(n) + obs) == ResolveIntended(obs)
    decreases n
  {
    if n > 0 {
      var t := Timeouts(n) + obs;
      assert t[0] == Timeout;
      assert t[1..] == Timeouts(n - 1) + obs;
      HeartbeatsTransparentIntended(n - 1, obs);
    } else {
      assert Timeouts(n) + obs == obs;
    }
  }

  /** Under the intended rule a dependent fails exactly when the vertex it
      depends on reported failure. */
  lemma IntendedPropagatesFailure(c: ExecContext, order: seq<string>, success: bool, now: nat, n: string, beats: nat)
    requires IsEnumeration(order, c.doneChs.Keys)
    requires OwnChannels(c.doneChs)
    requires now > 0
    requires n in c.doneChs
    ensures ResolveIntended(Timeouts(beats) + Delivered(Run(c, order, success, now).trace, c.doneChs[n]))
         == (if success then Satisfied else Failed)
  {
    RunDelivers(c, order, success, now, n);
    HeartbeatsTransparentIntended(beats, Delivered(Run(c, order, success, now).trace, c.doneChs[n]));
  }
}
