/**
 * The relay's mutable state and its event handlers: the module-level peer
 * registry, updated in place by the connection and close handlers, and the
 * sequence of sends the handlers issue.
 */
module SignalServer {
  import opened Signaling

  class Relay {
    /** Registered ids, each mapped to whether its socket's readyState is OPEN. */
    var open: map<Id, bool>
    /** The registered ids in insertion order, the order a Map iterates in. */
    var order: seq<Id>
    /** Every `send` issued so far, oldest first. */
    var outbox: seq<Delivery>

    ghost predicate Valid()
      reads this
    {
      Registry(order, open)
    }

    constructor ()
      ensures Valid()
      ensures open == map[] && order == [] && outbox == []
    {
      open, order, outbox := map[], [], [];
    }

    /** Sends `env` to every registered OPEN peer whose id is not `exclude`. */
    method BroadcastExcept(exclude: Field, env: Envelope)
      requires forall k :: 0 <= k < |order| ==> order[k] in open
      modifies this`outbox
      ensures outbox == old(outbox) + Fanout(order, open, exclude, env)
    {
      var i := 0;
      while i < |order|
        invariant 0 <= i <= |order|
        invariant outbox == old(outbox) + FanoutUpTo(order, i, open, exclude, env)
      {
        var peerId := order[i];
        if !Excluded(exclude, peerId) && open[peerId] {
          outbox := outbox + [Delivery(peerId, env)];
        }
        i := i + 1;
      }
    }

    /** `peers.set(id, ws)` for a fresh id: the new socket is OPEN and goes last. */
    method Register(id: Id)
      requires Valid()
      requires id !in open
      modifies this`open, this`order
      ensures Valid()
      ensures open == old(open)[id := true]
      ensures order == old(order) + [id]
    {
      ConnectKeepsRegistry(order, open, id);
      open := open[id := true];
      order := order + [id];
    }

    /**
     * A new connection, given the fresh id the generator chose: register it
     * as OPEN, welcome it with the list of the other ids, announce it to
     * the others.
     */
    method Connect(id: Id)
      requires Valid()
      requires id !in open
      modifies this
      ensures Valid()
      ensures open == old(open)[id := true]
      ensures order == old(order) + [id]
      ensures outbox == old(outbox) + ConnectOutput(old(order), old(open), id)
    {
      ghost var order0, open0 := order, open;
      Register(id);
      var peers := Others(order, id);
      assert peers == order0 by {
        OthersOfAppended(order0, id);
      }
      outbox := outbox + [Delivery(id, Welcome(id, peers))];
      ghost var mid := outbox;
      BroadcastExcept(Str(id), NewPeer(id));
      ghost var welcome, notes := [Delivery(id, Welcome(id, order0))], Fanout(order, open, Str(id), NewPeer(id));
      assert mid + notes == old(outbox) + (welcome + notes);
    }

    /**
     * An inbound frame on any connection. The registry is never changed;
     * the sends are those of the routing decision.
     */
    method Message(frame: Frame)
      requires Valid()
      modifies this`outbox
      ensures Valid()
      ensures open == old(open) && order == old(order)
      ensures outbox == old(outbox) + Deliveries(Route(frame, open), order, open)
    {
      match frame
      case Malformed =>
      case JsonNull =>
      case Json(m) =>
        if Truthy(m.to) && m.to.Str? && m.to.s in open {
          outbox := outbox + [Delivery(m.to.s, Forward(m))];
        } else if m.kind == Str("broadcast") {
          BroadcastExcept(m.from, Forward(m));
        }
    }

    /**
     * The close event of connection `id`: delete it (nothing happens to the
     * registry if it is absent) and tell every remaining OPEN peer.
     */
    method Close(id: Id)
      requires Valid()
      modifies this
      ensures Valid()
      ensures open == old(open) - {id}
      ensures order == Others(old(order), id)
      ensures outbox == old(outbox) + CloseOutput(old(order), old(open), id)
    {
      CloseKeepsRegistry(order, open, id);
      open := open - {id};
      order := Others(order, id);
      BroadcastExcept(Str(id), PeerLeft(id));
    }

    /**
     * The transport moves a socket out of OPEN (closing or closed) before its
     * close event arrives; a socket never returns to OPEN.
     */
    method SocketLeavesOpen(id: Id)
      requires Valid()
      modifies this`open
      ensures Valid()
      ensures order == old(order) && outbox == old(outbox)
      ensures open == if id in old(open) then old(open)[id := false] else old(open)
    {
      if id in open {
        open := open[id := false];
      }
    }
  }
}
