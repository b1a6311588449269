/** The synchronous actor system of nidus (nidus/actors.py, `SyncSystem` and
    `Actor._handle_message`): actors registered under addresses, one FIFO inbox per actor, a
    dead-letter inbox for messages to unknown addresses, and `flush`, which keeps visiting
    the inboxes in registration order, handing each actor the message at the head of its
    inbox, until a whole pass finds every inbox empty.

    An actor is a value here and handling a message is a function from the actor and the
    message to the actor's new value and the messages it sends, which the system then
    delivers with `send`. A handler that raises yields `Failed`, which still carries the
    actor as the handler left it and the messages it sent before raising: Python keeps
    both, since the actor is changed in place and `send` has already queued them. */
module Actors {
  import opened Common

  /** What handling one message produced: the actor's new value and what it sent, and,
      for `Failed`, the exception that ended the handler. */
  datatype Handled<A, M> =
    | Handled(actor: A, sent: seq<Envelope<M>>)
    | Failed(actor: A, sent: seq<Envelope<M>>, error: PyError)

  /** The observable state of a system: the actors, their inboxes and the dead letters. */
  datatype SystemState<A, M> = SystemState(actors: map<Addr, A>, inboxes: map<Addr, seq<M>>, deadLetters: seq<M>)

  /** The state after one pass (or part of one): whether any message was handled, and the
      exception that ended it, if any. */
  datatype PassResult<A, M> = PassResult(world: SystemState<A, M>, handled: bool, error: Option<PyError>)

  /** The state after `flush`: whether it ended with every inbox empty, or with an exception. */
  datatype FlushResult<A, M> = FlushResult(world: SystemState<A, M>, drained: bool, error: Option<PyError>)

  /** `send(to, msg)`: the message joins the back of the inbox of `to`; when no actor is
      registered there (the KeyError branch), it joins the dead letters instead. */
  function Post<A, M>(w: SystemState<A, M>, to: Addr, msg: M): (r: SystemState<A, M>)
    ensures r.actors == w.actors && r.inboxes.Keys == w.inboxes.Keys
  {
    if to in w.inboxes then w.(inboxes := w.inboxes[to := w.inboxes[to] + [msg]])
    else w.(deadLetters := w.deadLetters + [msg])
  }

  /** Sending several messages one after the other. */
  function PostAll<A, M>(w: SystemState<A, M>, sent: seq<Envelope<M>>): (r: SystemState<A, M>)
    ensures r.actors == w.actors && r.inboxes.Keys == w.inboxes.Keys
  {
    if sent == [] then w
    else
      var last := sent[|sent| - 1];
      Post(PostAll(w, sent[..|sent| - 1]), last.to, last.msg)
  }

  /** The messages of `sent` addressed to `a`, in sending order. */
  function MessagesTo<M>(sent: seq<Envelope<M>>, a: Addr): (r: seq<M>)
    ensures |r| <= |sent|
  {
    if sent == [] then []
    else
      var last := sent[|sent| - 1];
      MessagesTo(sent[..|sent| - 1], a) + (if last.to == a then [last.msg] else [])
  }

  /** The messages of `sent` whose address is not among `known`, in sending order. */
  function Undeliverable<M>(sent: seq<Envelope<M>>, known: set<Addr>): (r: seq<M>)
    ensures |r| <= |sent|
  {
    if sent == [] then []
    else
      var last := sent[|sent| - 1];
      Undeliverable(sent[..|sent| - 1], known) + (if last.to in known then [] else [last.msg])
  }

  /** One step of a `flush` pass at `addr`: an empty inbox is skipped; otherwise the head
      message is taken off and handed to the actor, whose sends are then delivered. A
      handler that raises keeps its effects up to the exception, which ends the pass. */
  function Visit<A, M>(w: SystemState<A, M>, addr: Addr, handle: (A, M) -> Handled<A, M>): (r: PassResult<A, M>)
    requires addr in w.inboxes && addr in w.actors
    ensures r.world.actors.Keys == w.actors.Keys && r.world.inboxes.Keys == w.inboxes.Keys
    ensures r.handled <==> w.inboxes[addr] != []
    ensures r.error.Some? ==> r.handled
  {
    if w.inboxes[addr] == [] then PassResult(w, false, None)
    else
      var popped := w.(inboxes := w.inboxes[addr := w.inboxes[addr][1..]]);
      var h := handle(w.actors[addr], w.inboxes[addr][0]);
      var after := PostAll(popped.(actors := popped.actors[addr := h.actor]), h.sent);
      PassResult(after, true, if h.Failed? then Some(h.error) else None)
  }

  /** A pass of `flush` over the addresses `addrs` in order; an exception ends it. */
  function Pass<A, M>(w: SystemState<A, M>, addrs: seq<Addr>, handle: (A, M) -> Handled<A, M>): (r: PassResult<A, M>)
    requires forall a :: a in addrs ==> a in w.inboxes && a in w.actors
    ensures r.world.actors.Keys == w.actors.Keys && r.world.inboxes.Keys == w.inboxes.Keys
    ensures r.error.Some? ==> r.handled
  {
    if addrs == [] then PassResult(w, false, None)
    else
      var p := Pass(w, addrs[..|addrs| - 1], handle);
      if p.error.Some? then p
      else
        var v := Visit(p.world, addrs[|addrs| - 1], handle);
        PassResult(v.world, p.handled || v.handled, v.error)
  }

  /** `flush`, limited to `passes` passes: it ends with `drained` after a pass that
      handled nothing, and with the exception of a handler that raised. */
  function FlushSpec<A, M>(w: SystemState<A, M>, addrs: seq<Addr>, handle: (A, M) -> Handled<A, M>, passes: nat): (r: FlushResult<A, M>)
    requires forall a :: a in addrs ==> a in w.inboxes && a in w.actors
    ensures r.world.actors.Keys == w.actors.Keys && r.world.inboxes.Keys == w.inboxes.Keys
    ensures r.drained ==> r.error.None?
    decreases passes
  {
    if passes == 0 then FlushResult(w, false, None)
    else
      var p := Pass(w, addrs, handle);
      if p.error.Some? then FlushResult(p.world, false, p.error)
      else if !p.handled then FlushResult(p.world, true, None)
      else FlushSpec(p.world, addrs, handle, passes - 1)
  }

  /** `s` without the element `a`, the rest in order: the key order of a dictionary after
      `pop(a)`. */
  function Without(s: seq<Addr>, a: Addr): (r: seq<Addr>)
    ensures forall x :: x in r <==> x in s && x != a
    ensures NoDuplicates(s) ==> NoDuplicates(r)
  {
    if s == [] then []
    else
      var rest := Without(s[1..], a);
      if s[0] == a then rest
      else
        assert NoDuplicates(s) ==> s[0] !in s[1..] by {
          if NoDuplicates(s) {
            assert forall j :: 0 <= j < |s[1..]| ==> s[1..][j] == s[j + 1];
          }
        }
        assert forall i :: 0 < i < |[s[0]] + rest| ==> ([s[0]] + rest)[i] == rest[i - 1];
        [s[0]] + rest
  }

  /** `"handle_" + msg_type`: the name of the method that `_handle_message` looks up. */
  function HandlerName(msgType: string): string
  {
    "handle_" + msgType
  }

  /** `Actor._handle_message(msg)`: calls the actor's handler for the message's type; an
      actor without such a method raises AttributeError before anything happens. */
  function HandleMessage<A, M>(handlers: map<string, (A, M) -> Handled<A, M>>, msgType: string, actor: A, msg: M): (r: Handled<A, M>)
    ensures HandlerName(msgType) in handlers ==> r == handlers[HandlerName(msgType)](actor, msg)
    ensures HandlerName(msgType) !in handlers ==> r == Failed(actor, [], AttributeError(HandlerName(msgType)))
  {
    if HandlerName(msgType) in handlers then handlers[HandlerName(msgType)](actor, msg)
    else Failed(actor, [], AttributeError(HandlerName(msgType)))
  }

  class SyncSystem<A, M> {
    /** The actor registered at each address. */
    var actors: map<Addr, A>
    /** The inbox of each registered address, oldest message first. */
    var inboxes: map<Addr, seq<M>>
    /** The registered addresses in the order the dictionaries keep them (insertion order). */
    var order: seq<Addr>
    /** Messages that were sent to an address nobody is registered at. */
    var deadLetters: seq<M>

    /** Actors and inboxes are registered together, under the addresses that `order` lists
        once each. */
    ghost predicate Valid()
      reads this
    {
      actors.Keys == inboxes.Keys
      && NoDuplicates(order)
      && (forall a :: a in order <==> a in inboxes)
    }

    function Current(): SystemState<A, M>
      reads this
    {
      SystemState(actors, inboxes, deadLetters)
    }

    constructor ()
      ensures Valid()
      ensures actors == map[] && inboxes == map[] && order == [] && deadLetters == []
    {
      actors := map[];
      inboxes := map[];
      order := [];
      deadLetters := [];
    }

    /** `create(addr, ...)`: registers the actor with a new, empty inbox and returns the
        address. Registering at a taken address replaces actor and inbox but keeps the
        address's place in the order. */
    method Create(addr: Addr, actor: A) returns (r: Addr)
      requires Valid()
      modifies this
      ensures Valid()
      ensures r == addr
      ensures actors == old(actors)[addr := actor] && inboxes == old(inboxes)[addr := []]
      ensures order == if addr in old(order) then old(order) else old(order) + [addr]
      ensures deadLetters == old(deadLetters)
    {
      actors := actors[addr := actor];
      inboxes := inboxes[addr := []];
      if addr !in order {
        order := order + [addr];
      }
      r := addr;
    }

    /** `destroy(addr)`: unregisters the actor and drops its inbox, with any messages still in
        it; an address nobody is registered at raises KeyError and changes nothing. */
    method Destroy(addr: Addr) returns (err: Option<PyError>)
      requires Valid()
      modifies this
      ensures Valid()
      ensures addr !in old(inboxes) ==> err == Some(KeyError(addr)) && unchanged(this)
      ensures addr in old(inboxes) ==>
                err == None && actors == old(actors) - {addr} && inboxes == old(inboxes) - {addr}
                && order == Without(old(order), addr) && deadLetters == old(deadLetters)
    {
      if addr !in inboxes {
        return Some(KeyError(addr));
      }
      inboxes := inboxes - {addr};
      actors := actors - {addr};
      order := Without(order, addr);
      err := None;
    }

    /** `shutdown()`: destroys every actor, in registration order. */
    method Shutdown()
      requires Valid()
      modifies this
      ensures Valid()
      ensures actors == map[] && inboxes == map[] && order == []
      ensures deadLetters == old(deadLetters)
    {
      var addrs := order;
      var i := 0;
      while i < |addrs|
        invariant 0 <= i <= |addrs|
        invariant Valid() && order == addrs[i..]
        invariant deadLetters == old(deadLetters)
      {
        var err := Destroy(addrs[i]);
        WithoutHead(addrs[i..], addrs[i]);
        assert addrs[i..][1..] == addrs[i + 1..];
        i := i + 1;
      }
      assert inboxes.Keys == {} && actors.Keys == {};
    }

    /** `send(to, msg)`. */
    method Send(to: Addr, msg: M)
      requires Valid()
      modifies this
      ensures Valid() && order == old(order)
      ensures Current() == Post(old(Current()), to, msg)
    {
      if to in inboxes {
        inboxes := inboxes[to := inboxes[to] + [msg]];
      } else {
        deadLetters := deadLetters + [msg];
      }
    }

    /** `flush()`, stopped after `maxPasses` passes: each pass walks the addresses in order
        and hands every actor with a non-empty inbox its oldest message. It returns
        `drained` once a pass handled nothing, in which case every inbox is empty, and the
        exception of a handler that raised. */
    method Flush(handle: (A, M) -> Handled<A, M>, maxPasses: nat) returns (drained: bool, err: Option<PyError>)
      requires Valid()
      modifies this
      ensures Valid() && order == old(order)
      ensures FlushResult(Current(), drained, err) == FlushSpec(old(Current()), old(order), handle, maxPasses)
      ensures drained ==> forall a :: a in inboxes ==> inboxes[a] == []
    {
      FlushDrainedEmpty(Current(), order, handle, maxPasses);
      var addrs := order;
      var passes := 0;
      while passes < maxPasses
        invariant 0 <= passes <= maxPasses
        invariant Valid() && order == addrs == old(order)
        invariant FlushSpec(Current(), addrs, handle, maxPasses - passes) == FlushSpec(old(Current()), addrs, handle, maxPasses)
      {
        ghost var before := Current();
        var emptied;
        emptied, err := RunPass(addrs, handle);
        assert FlushSpec(before, addrs, handle, maxPasses - passes)
               == if err.Some? then FlushResult(Current(), false, err)
                  else if emptied then FlushResult(Current(), true, None)
                  else FlushSpec(Current(), addrs, handle, maxPasses - passes - 1);
        passes := passes + 1;
        if err.Some? {
          return false, err;
        }
        if emptied {
          return true, None;
        }
      }
      return false, None;
    }

    /** One pass of the `while not emptied` loop of `flush` over `list(self._inboxes)`;
        `emptied` stays true only when no message was handled. */
    method RunPass(addrs: seq<Addr>, handle: (A, M) -> Handled<A, M>) returns (emptied: bool, err: Option<PyError>)
      requires Valid() && order == addrs
      modifies this
      ensures Valid() && order == old(order)
      ensures PassResult(Current(), !emptied, err) == Pass(old(Current()), addrs, handle)
    {
      ghost var start := Current();
      emptied := true;
      for i := 0 to |addrs|
        invariant Valid() && order == addrs
        invariant PassResult(Current(), !emptied, None) == Pass(start, addrs[..i], handle)
      {
        assert addrs[..i + 1][..i] == addrs[..i];
        var handled;
        handled, err := VisitInbox(addrs[i], handle);
        emptied := emptied && !handled;
        if err.Some? {
          PassErrorSticks(start, addrs, handle, i + 1);
          return;
        }
      }
      assert addrs[..|addrs|] == addrs;
      err := None;
    }

    /** The body of the pass loop for one address: take the oldest message, if any, and have
        the actor handle it; what a raising handler did before the exception stays. */
    method VisitInbox(addr: Addr, handle: (A, M) -> Handled<A, M>) returns (handled: bool, err: Option<PyError>)
      requires Valid() && addr in order
      modifies this
      ensures Valid() && order == old(order)
      ensures PassResult(Current(), handled, err) == Visit(old(Current()), addr, handle)
    {
      if inboxes[addr] == [] {
        return false, None;
      }
      var msg := inboxes[addr][0];
      inboxes := inboxes[addr := inboxes[addr][1..]];
      var h := handle(actors[addr], msg);
      actors := actors[addr := h.actor];
      SendAll(h.sent);
      handled := true;
      err := if h.Failed? then Some(h.error) else None;
    }

    /** The sends a handler made, delivered one after the other. */
    method SendAll(sent: seq<Envelope<M>>)
      requires Valid()
      modifies this
      ensures Valid() && order == old(order)
      ensures Current() == PostAll(old(Current()), sent)
    {
      for j := 0 to |sent|
        invariant Valid() && order == old(order)
        invariant Current() == PostAll(old(Current()), sent[..j])
      {
        Send(sent[j].to, sent[j].msg);
        assert sent[..j + 1][..j] == sent[..j];
      }
      assert sent[..|sent|] == sent;
    }
  }

  /** Removing the first of a duplicate-free sequence leaves the rest. */
  lemma {:induction false} WithoutHead(s: seq<Addr>, a: Addr)
    requires NoDuplicates(s) && s != [] && s[0] == a
    ensures Without(s, a) == s[1..]
  {
    assert a !in s[1..];
    WithoutAbsent(s[1..], a);
  }

  /** Removing an absent element changes nothing. */
  lemma {:induction false} WithoutAbsent(s: seq<Addr>, a: Addr)
    requires a !in s
    ensures Without(s, a) == s
  {
    if s != [] {
      WithoutAbsent(s[1..], a);
    }
  }

  /** Delivery keeps order and loses nothing: each registered inbox receives exactly the
      messages addressed to it, behind what it held and in sending order, and the dead
      letters receive exactly the messages to unregistered addresses. */
  lemma {:induction false} PostAllDelivers<A, M>(w: SystemState<A, M>, sent: seq<Envelope<M>>)
    ensures forall a :: a in w.inboxes ==> PostAll(w, sent).inboxes[a] == w.inboxes[a] + MessagesTo(sent, a)
    ensures PostAll(w, sent).deadLetters == w.deadLetters + Undeliverable(sent, w.inboxes.Keys)
  {
    if sent != [] {
      PostAllDelivers(w, sent[..|sent| - 1]);
    }
  }

  /** An actor with a waiting message receives the oldest one; afterwards its inbox holds the
      rest followed by whatever the actor sent to itself, and the actor has its new value.
      This holds as well when the handler raises: what it did before the exception stays,
      and the exception is reported. */
  lemma VisitIsFifo<A, M>(w: SystemState<A, M>, addr: Addr, handle: (A, M) -> Handled<A, M>)
    requires addr in w.inboxes && addr in w.actors && w.inboxes[addr] != []
    ensures var h := handle(w.actors[addr], w.inboxes[addr][0]);
            var v := Visit(w, addr, handle);
            v.error == (if h.Failed? then Some(h.error) else None)
            && v.world.actors[addr] == h.actor
            && v.world.inboxes[addr] == w.inboxes[addr][1..] + MessagesTo(h.sent, addr)
  {
    var h := handle(w.actors[addr], w.inboxes[addr][0]);
    var popped := w.(inboxes := w.inboxes[addr := w.inboxes[addr][1..]]);
    PostAllDelivers(popped.(actors := popped.actors[addr := h.actor]), h.sent);
  }

  /** A message whose type has no handler is taken off the inbox and raises AttributeError
      naming the missing handler; the actor and every other inbox stay as they were. */
  lemma MissingHandlerOnlyPops<A, M>(w: SystemState<A, M>, addr: Addr,
                                     handlers: map<string, (A, M) -> Handled<A, M>>, msgType: M -> string)
    requires addr in w.inboxes && addr in w.actors && w.inboxes[addr] != []
    requires HandlerName(msgType(w.inboxes[addr][0])) !in handlers
    ensures var v := Visit(w, addr, (a, m) => HandleMessage(handlers, msgType(m), a, m));
            v.world == w.(inboxes := w.inboxes[addr := w.inboxes[addr][1..]])
            && v.error == Some(AttributeError(HandlerName(msgType(w.inboxes[addr][0]))))
  {
    var popped := w.(inboxes := w.inboxes[addr := w.inboxes[addr][1..]]);
    assert popped.actors[addr := w.actors[addr]] == popped.actors;
  }

  /** A pass handles nothing exactly when every inbox it visits is empty, and then it
      changes nothing. */
  lemma {:induction false} QuietPass<A, M>(w: SystemState<A, M>, addrs: seq<Addr>, handle: (A, M) -> Handled<A, M>)
    requires forall a :: a in addrs ==> a in w.inboxes && a in w.actors
    ensures !Pass(w, addrs, handle).handled <==> forall a :: a in addrs ==> w.inboxes[a] == []
    ensures !Pass(w, addrs, handle).handled ==> Pass(w, addrs, handle) == PassResult(w, false, None)
  {
    if addrs != [] {
      var init := addrs[..|addrs| - 1];
      QuietPass(w, init, handle);
      assert forall a :: a in addrs <==> a in init || a == addrs[|addrs| - 1];
    }
  }

  /** Once a handler has raised, the rest of the pass does nothing more. */
  lemma {:induction false} PassErrorSticks<A, M>(w: SystemState<A, M>, addrs: seq<Addr>, handle: (A, M) -> Handled<A, M>, k: nat)
    requires forall a :: a in addrs ==> a in w.inboxes && a in w.actors
    requires k <= |addrs| && Pass(w, addrs[..k], handle).error.Some?
    ensures Pass(w, addrs, handle) == Pass(w, addrs[..k], handle)
  {
    if k < |addrs| {
      var init := addrs[..|addrs| - 1];
      assert init[..k] == addrs[..k];
      PassErrorSticks(w, init, handle, k);
    } else {
      assert addrs[..k] == addrs;
    }
  }

  /** A `flush` that reports `drained` leaves every visited inbox empty. */
  lemma {:induction false} FlushDrainedEmpty<A, M>(w: SystemState<A, M>, addrs: seq<Addr>, handle: (A, M) -> Handled<A, M>, passes: nat)
    requires forall a :: a in addrs ==> a in w.inboxes && a in w.actors
    ensures var r := FlushSpec(w, addrs, handle, passes);
            r.drained ==> forall a :: a in addrs ==> a in r.world.inboxes && r.world.inboxes[a] == []
    decreases passes
  {
    var r := FlushSpec(w, addrs, handle, passes);
    if passes > 0 {
      var p := Pass(w, addrs, handle);
      if p.error.Some? {
        assert !r.drained;
      } else if !p.handled {
        QuietPass(w, addrs, handle);
        assert r.world == w;
      } else {
        FlushDrainedEmpty(p.world, addrs, handle, passes - 1);
        assert r == FlushSpec(p.world, addrs, handle, passes - 1);
      }
    }
  }

  /** A system whose inboxes are all empty is drained by one pass, unchanged. */
  lemma IdleFlush<A, M>(w: SystemState<A, M>, addrs: seq<Addr>, handle: (A, M) -> Handled<A, M>, passes: nat)
    requires forall a :: a in addrs ==> a in w.inboxes && a in w.actors && w.inboxes[a] == []
    requires passes >= 1
    ensures FlushSpec(w, addrs, handle, passes) == FlushResult(w, true, None)
  {
    QuietPass(w, addrs, handle);
  }

  /** Distinct message types are dispatched to distinct handlers. */
  lemma HandlerNameInjective(t1: string, t2: string)
    requires HandlerName(t1) == HandlerName(t2)
    ensures t1 == t2
  {
    assert t1 == HandlerName(t1)[7..];
    assert t2 == HandlerName(t2)[7..];
  }
}
