/**
 * The signaling protocol of the mesh relay as values: the inbound message
 * shape, the envelopes the relay sends, and the pure functions that say which
 * deliveries each event produces. The class in relay.dfy is proved against
 * these functions; the lemmas below state what the relay promises about them.
 */
module Signaling {

  /** A connection id (a UUID string in the relay). */
  type Id = string

  /**
   * The value of one field of a parsed frame, as far as routing can tell it
   * apart: missing (`undefined`), a string, or any other JSON value (number,
   * boolean, null, array, object), of which only its truthiness matters.
   */
  datatype Field = Absent | Str(s: string) | NonString(truthy: bool)

  /** JavaScript truthiness of a field value. */
  predicate Truthy(f: Field)
  {
    match f
    case Absent => false
    case Str(s) => s != ""
    case NonString(t) => t
  }

  /**
   * A parsed inbound frame: the three fields routing reads, and everything
   * else it carries, kept opaque and passed through verbatim. A JSON value
   * that is not an object (a number, a string, an array) has none of the
   * three fields, so it is a `Msg` whose fields are all `Absent`.
   */
  datatype Msg = Msg(to: Field, from: Field, kind: Field, rest: string)

  /** The outcome of parsing one text frame. */
  datatype Frame =
    | Malformed      // not valid JSON: the parser throws
    | JsonNull       // the JSON literal `null`
    | Json(msg: Msg) // any other JSON value

  /** What the relay sends. `Forward` is an inbound message re-sent unchanged. */
  datatype Envelope =
    | Welcome(peerId: Id, peers: seq<Id>)
    | NewPeer(peerId: Id)
    | PeerLeft(peerId: Id)
    | Forward(msg: Msg)

  /** One call of `send`: the recipient's id and the envelope. */
  datatype Delivery = Delivery(to: Id, env: Envelope)

  predicate Distinct(s: seq<Id>)
  {
    forall i, j :: 0 <= i < j < |s| ==> s[i] != s[j]
  }

  /**
   * The registry: `open` maps each registered id to whether its socket is
   * OPEN, and `order` lists the registered ids in insertion order (the
   * iteration order of a JavaScript Map), each exactly once.
   */
  ghost predicate Registry(order: seq<Id>, open: map<Id, bool>)
  {
    && Distinct(order)
    && (forall i :: 0 <= i < |order| ==> order[i] in open)
    && (forall id :: id in open ==> id in order)
  }

  /** Whether `id` is registered and its socket is OPEN. */
  predicate IsOpen(open: map<Id, bool>, id: Id)
  {
    id in open && open[id]
  }

  /** `peerId !== senderId`, negated: only an equal string excludes. */
  predicate Excluded(exclude: Field, id: Id)
  {
    exclude == Str(id)
  }

  /** The ids of `s` other than `x`, in the order of `s`. */
  function Others(s: seq<Id>, x: Id): seq<Id>
  {
    if s == [] then []
    else Others(s[..|s| - 1], x) + (if s[|s| - 1] == x then [] else [s[|s| - 1]])
  }

  /** The filter keeps exactly the ids of `s` that are not `x`. */
  lemma {:induction false} OthersMembers(s: seq<Id>, x: Id, y: Id)
    ensures y in Others(s, x) <==> y in s && y != x
  {
    if s != [] {
      var p := s[..|s| - 1];
      OthersMembers(p, x, y);
      assert s == p + [s[|s| - 1]];
    }
  }

  lemma {:induction false} OthersDistinct(s: seq<Id>, x: Id)
    requires Distinct(s)
    ensures Distinct(Others(s, x))
  {
    if s != [] {
      var p, last := s[..|s| - 1], s[|s| - 1];
      OthersDistinct(p, x);
      assert last !in p by {
        forall i | 0 <= i < |p| ensures p[i] != last {
          assert s[i] == p[i];
        }
      }
      OthersMembers(p, x, last);
    }
  }

  /** Filtering out an id that is not there changes nothing. */
  lemma {:induction false} OthersAbsent(s: seq<Id>, x: Id)
    requires x !in s
    ensures Others(s, x) == s
  {
    if s != [] {
      var p := s[..|s| - 1];
      assert s == p + [s[|s| - 1]];
      assert x !in p;
      OthersAbsent(p, x);
    }
  }

  /**
   * After a fresh id is appended, the other ids are exactly the ones that
   * were there before, in the same order.
   */
  lemma {:induction false} OthersOfAppended(s: seq<Id>, x: Id)
    requires x !in s
    ensures Others(s + [x], x) == s
  {
    assert (s + [x])[..|s|] == s;
    OthersAbsent(s, x);
  }

  /**
   * The sends `broadcastExcept(exclude, env)` has made once it has visited
   * the first `n` ids of `s`: one per id that is not excluded and whose
   * socket is OPEN, in the order of `s`.
   */
  function FanoutUpTo(s: seq<Id>, n: nat, open: map<Id, bool>, exclude: Field, env: Envelope): seq<Delivery>
    requires n <= |s|
  {
    if n == 0 then []
    else
      FanoutUpTo(s, n - 1, open, exclude, env)
        + (if !Excluded(exclude, s[n - 1]) && IsOpen(open, s[n - 1]) then [Delivery(s[n - 1], env)] else [])
  }

  /** All the sends of `broadcastExcept(exclude, env)` over the ids `s`. */
  function Fanout(s: seq<Id>, open: map<Id, bool>, exclude: Field, env: Envelope): seq<Delivery>
  {
    FanoutUpTo(s, |s|, open, exclude, env)
  }

  lemma {:induction false} FanoutUpToSends(s: seq<Id>, n: nat, open: map<Id, bool>, exclude: Field, env: Envelope, k: nat)
    requires n <= |s|
    requires k < |FanoutUpTo(s, n, open, exclude, env)|
    ensures FanoutUpTo(s, n, open, exclude, env)[k].env == env
    ensures FanoutUpTo(s, n, open, exclude, env)[k].to in s
    ensures IsOpen(open, FanoutUpTo(s, n, open, exclude, env)[k].to)
    ensures !Excluded(exclude, FanoutUpTo(s, n, open, exclude, env)[k].to)
  {
    var first := FanoutUpTo(s, n - 1, open, exclude, env);
    if k < |first| {
      FanoutUpToSends(s, n - 1, open, exclude, env, k);
    }
  }

  /** Every send of the fan-out carries `env` to an OPEN, non-excluded id of `s`. */
  lemma FanoutSends(s: seq<Id>, open: map<Id, bool>, exclude: Field, env: Envelope, k: nat)
    requires k < |Fanout(s, open, exclude, env)|
    ensures Fanout(s, open, exclude, env)[k].env == env
    ensures Fanout(s, open, exclude, env)[k].to in s
    ensures IsOpen(open, Fanout(s, open, exclude, env)[k].to)
    ensures !Excluded(exclude, Fanout(s, open, exclude, env)[k].to)
  {
    FanoutUpToSends(s, |s|, open, exclude, env, k);
  }

  /** The number of deliveries addressed to `y`. */
  function Count(ds: seq<Delivery>, y: Id): nat
  {
    if ds == [] then 0
    else Count(ds[..|ds| - 1], y) + (if ds[|ds| - 1].to == y then 1 else 0)
  }

  lemma {:induction false} CountAppend(a: seq<Delivery>, b: seq<Delivery>, y: Id)
    ensures Count(a + b, y) == Count(a, y) + Count(b, y)
  {
    if b == [] {
      assert a + b == a;
    } else {
      var p := b[..|b| - 1];
      assert (a + b)[..|a + b| - 1] == a + p;
      assert (a + b)[|a + b| - 1] == b[|b| - 1];
      CountAppend(a, p, y);
    }
  }

  lemma CountSingle(ds: seq<Delivery>, d: Delivery, y: Id)
    requires ds == [d]
    ensures Count(ds, y) == if d.to == y then 1 else 0
  {
    assert ds[..0] == [];
  }

  /** Growing a prefix of a duplicate-free sequence by one adds one new id. */
  lemma PrefixGrows(s: seq<Id>, n: nat, y: Id)
    requires 0 < n <= |s|
    requires Distinct(s)
    ensures (y in s[..n]) <==> (y in s[..n - 1] || y == s[n - 1])
    ensures s[n - 1] !in s[..n - 1]
  {
    assert s[..n] == s[..n - 1] + [s[n - 1]];
    forall i | 0 <= i < n - 1 ensures s[i] != s[n - 1] {
    }
  }

  lemma {:induction false} FanoutUpToCount(s: seq<Id>, n: nat, open: map<Id, bool>, exclude: Field, env: Envelope, y: Id)
    requires n <= |s|
    requires Distinct(s)
    ensures Count(FanoutUpTo(s, n, open, exclude, env), y)
              == if y in s[..n] && IsOpen(open, y) && !Excluded(exclude, y) then 1 else 0
  {
    if n > 0 {
      var last := s[n - 1];
      FanoutUpToCount(s, n - 1, open, exclude, env, y);
      PrefixGrows(s, n, y);
      var piece := if !Excluded(exclude, last) && IsOpen(open, last) then [Delivery(last, env)] else [];
      CountAppend(FanoutUpTo(s, n - 1, open, exclude, env), piece, y);
      if piece != [] {
        CountSingle(piece, Delivery(last, env), y);
      }
    }
  }

  /**
   * The fan-out reaches every OPEN, non-excluded id of a duplicate-free `s`
   * exactly once, and no other id at all.
   */
  lemma FanoutCount(s: seq<Id>, open: map<Id, bool>, exclude: Field, env: Envelope, y: Id)
    requires Distinct(s)
    ensures Count(Fanout(s, open, exclude, env), y)
              == if y in s && IsOpen(open, y) && !Excluded(exclude, y) then 1 else 0
  {
    FanoutUpToCount(s, |s|, open, exclude, env, y);
    assert s[..|s|] == s;
  }

  /** The fan-out depends only on the ids it visits and their OPEN flags. */
  lemma {:induction false} FanoutUpToFrame(s1: seq<Id>, o1: map<Id, bool>, s2: seq<Id>, o2: map<Id, bool>, n: nat, exclude: Field, env: Envelope)
    requires n <= |s1| && n <= |s2|
    requires forall i :: 0 <= i < n ==> s1[i] == s2[i] && IsOpen(o1, s1[i]) == IsOpen(o2, s2[i])
    ensures FanoutUpTo(s1, n, o1, exclude, env) == FanoutUpTo(s2, n, o2, exclude, env)
  {
    if n > 0 {
      FanoutUpToFrame(s1, o1, s2, o2, n - 1, exclude, env);
    }
  }

  /**
   * The sends of a connect by a fresh `id` that finds the registry
   * (`order`, `open`): the welcome to the new peer listing the ids already
   * there, then the `new-peer` fan-out over the grown registry, excluding
   * the new id.
   */
  function ConnectOutput(order: seq<Id>, open: map<Id, bool>, id: Id): seq<Delivery>
  {
    [Delivery(id, Welcome(id, order))] + Fanout(order + [id], open[id := true], Str(id), NewPeer(id))
  }

  /** Iterating over the grown registry sends the same `new-peer` envelopes as the old one. */
  lemma ConnectFanout(order: seq<Id>, open: map<Id, bool>, id: Id)
    requires id !in order
    ensures Fanout(order + [id], open[id := true], Str(id), NewPeer(id))
              == Fanout(order, open, Str(id), NewPeer(id))
  {
    var grown := order + [id];
    assert grown[|order|] == id;
    forall i | 0 <= i < |order|
      ensures grown[i] == order[i] && IsOpen(open[id := true], grown[i]) == IsOpen(open, order[i])
    {
      assert order[i] != id;
    }
    FanoutUpToFrame(grown, open[id := true], order, open, |order|, Str(id), NewPeer(id));
  }

  /** A connect keeps the registry well formed. */
  lemma ConnectKeepsRegistry(order: seq<Id>, open: map<Id, bool>, id: Id)
    requires Registry(order, open)
    requires id !in open
    ensures Registry(order + [id], open[id := true])
  {
  }

  /**
   * On connect, the new peer gets exactly one send, its welcome, whose list
   * is the registered ids other than the new one, in insertion order, that
   * is, everyone who was already there; every previously registered OPEN peer gets
   * exactly one send, a `new-peer` carrying the new id; nobody else gets any.
   */
  lemma ConnectDeliveries(order: seq<Id>, open: map<Id, bool>, id: Id, y: Id)
    requires Registry(order, open)
    requires id !in open
    ensures ConnectOutput(order, open, id)[0] == Delivery(id, Welcome(id, order))
    ensures order == Others(order + [id], id)
    ensures forall p :: p in ConnectOutput(order, open, id)[0].env.peers <==> p in open
    ensures forall k :: 1 <= k < |ConnectOutput(order, open, id)| ==>
              ConnectOutput(order, open, id)[k].env == NewPeer(id)
    ensures Count(ConnectOutput(order, open, id), y)
              == if y == id || IsOpen(open, y) then 1 else 0
  {
    var welcome := [Delivery(id, Welcome(id, order))];
    var notes := Fanout(order, open, Str(id), NewPeer(id));
    ConnectFanout(order, open, id);
    assert ConnectOutput(order, open, id) == welcome + notes;
    CountAppend(welcome, notes, y);
    assert welcome[..0] == [];
    FanoutCount(order, open, Str(id), NewPeer(id), y);
    OthersOfAppended(order, id);
    forall k | 1 <= k < |welcome + notes| ensures (welcome + notes)[k].env == NewPeer(id) {
      FanoutSends(order, open, Str(id), NewPeer(id), k - 1);
    }
  }

  /**
   * The sends of a close of `id` from the registry (`order`, `open`): the id
   * is deleted, then one `peer-left` to each remaining peer that is OPEN.
   */
  function CloseOutput(order: seq<Id>, open: map<Id, bool>, id: Id): seq<Delivery>
  {
    Fanout(Others(order, id), open - {id}, Str(id), PeerLeft(id))
  }

  /** A close keeps the registry well formed and leaves `id` unregistered. */
  lemma CloseKeepsRegistry(order: seq<Id>, open: map<Id, bool>, id: Id)
    requires Registry(order, open)
    ensures Registry(Others(order, id), open - {id})
    ensures id !in open - {id}
  {
    OthersDistinct(order, id);
    var r := Others(order, id);
    forall i | 0 <= i < |r| ensures r[i] in open - {id} {
      OthersMembers(order, id, r[i]);
    }
    forall y | y in open - {id} ensures y in r {
      OthersMembers(order, id, y);
    }
  }

  /** Closing an id that is not registered leaves the registry as it is. */
  lemma CloseAbsent(order: seq<Id>, open: map<Id, bool>, id: Id)
    requires Registry(order, open)
    requires id !in open
    ensures Others(order, id) == order && open - {id} == open
  {
    OthersAbsent(order, id);
  }

  /**
   * On close, every remaining OPEN peer gets exactly one send, a `peer-left`
   * carrying the closed id; the closed id and closed sockets get none.
   */
  lemma CloseDeliveries(order: seq<Id>, open: map<Id, bool>, id: Id, y: Id)
    requires Registry(order, open)
    ensures forall k :: 0 <= k < |CloseOutput(order, open, id)| ==>
              CloseOutput(order, open, id)[k].env == PeerLeft(id)
    ensures Count(CloseOutput(order, open, id), y)
              == if y != id && IsOpen(open, y) then 1 else 0
  {
    OthersDistinct(order, id);
    OthersMembers(order, id, y);
    FanoutCount(Others(order, id), open - {id}, Str(id), PeerLeft(id), y);
    forall k | 0 <= k < |CloseOutput(order, open, id)| ensures CloseOutput(order, open, id)[k].env == PeerLeft(id) {
      FanoutSends(Others(order, id), open - {id}, Str(id), PeerLeft(id), k);
    }
  }

  /** What the message handler decides to do with one frame. */
  datatype Action =
    | Drop
    | Unicast(target: Id, msg: Msg)
    | Broadcast(exclude: Field, msg: Msg)
    | Crash  // an exception escapes the handler (only `RouteAsWritten` yields it)

  /**
   * Routing of a parsed message: unicast when `to` is truthy and a registered
   * id; otherwise broadcast, excluding the message's own `from`, when `type`
   * is the string "broadcast"; otherwise drop.
   */
  function Dispatch(m: Msg, open: map<Id, bool>): Action
  {
    if Truthy(m.to) && m.to.Str? && m.to.s in open then Unicast(m.to.s, m)
    else if m.kind == Str("broadcast") then Broadcast(m.from, m)
    else Drop
  }

  /**
   * The message handler as written: a frame that is not JSON is dropped, but
   * the JSON literal `null` parses successfully and reading `msg.to` from it
   * throws outside the try block.
   */
  function RouteAsWritten(f: Frame, open: map<Id, bool>): Action
  {
    match f
    case Malformed => Drop
    case JsonNull => Crash
    case Json(m) => Dispatch(m, open)
  }

  /** The message handler with `null` dropped like any other unusable frame. */
  function Route(f: Frame, open: map<Id, bool>): Action
  {
    match f
    case Malformed => Drop
    case JsonNull => Drop
    case Json(m) => Dispatch(m, open)
  }

  /** The sends an action makes against the registry (`order`, `open`). */
  function Deliveries(a: Action, order: seq<Id>, open: map<Id, bool>): seq<Delivery>
  {
    match a
    case Unicast(t, m) => [Delivery(t, Forward(m))]
    case Broadcast(x, m) => Fanout(order, open, x, Forward(m))
    case _ => []
  }

  /** The frame `null` makes the handler as written throw. */
  lemma NullFrameCrashesAsWritten(open: map<Id, bool>)
    ensures RouteAsWritten(JsonNull, open) == Crash
  {
  }

  /**
   * The corrected handler never throws, agrees with the handler as written on
   * every other frame, and drops unparsable and `null` frames without a send.
   */
  lemma RouteNeverCrashes(f: Frame, order: seq<Id>, open: map<Id, bool>)
    ensures Route(f, open) != Crash
    ensures f != JsonNull ==> Route(f, open) == RouteAsWritten(f, open)
    ensures !f.Json? ==> Deliveries(Route(f, open), order, open) == []
  {
  }

  /**
   * A message whose `to` is a non-empty registered id goes, unchanged, to
   * that peer and nobody else, whatever its `type` (unicast wins over
   * broadcast), and whether or not that peer's socket is OPEN.
   */
  lemma UnicastDelivery(m: Msg, order: seq<Id>, open: map<Id, bool>, t: Id, y: Id)
    requires m.to == Str(t) && t != "" && t in open
    ensures Route(Json(m), open) == Unicast(t, m)
    ensures Deliveries(Route(Json(m), open), order, open) == [Delivery(t, Forward(m))]
    ensures Count(Deliveries(Route(Json(m), open), order, open), y) == if y == t then 1 else 0
  {
    assert [Delivery(t, Forward(m))][..0] == [];
  }

  /** A falsy `to` (absent, empty string, 0, false, null) never unicasts. */
  lemma FalsyToNeverUnicasts(m: Msg, open: map<Id, bool>)
    requires !Truthy(m.to)
    ensures !Route(Json(m), open).Unicast?
    ensures Route(Json(m), open) == if m.kind == Str("broadcast") then Broadcast(m.from, m) else Drop
  {
  }

  /**
   * A broadcast that is not a unicast goes, unchanged, exactly once to every
   * registered OPEN peer whose id is not the message's own `from`, and to
   * nobody else.
   */
  lemma BroadcastDelivery(m: Msg, order: seq<Id>, open: map<Id, bool>, y: Id)
    requires Registry(order, open)
    requires !(Truthy(m.to) && m.to.Str? && m.to.s in open)
    requires m.kind == Str("broadcast")
    ensures Route(Json(m), open) == Broadcast(m.from, m)
    ensures forall k :: 0 <= k < |Deliveries(Route(Json(m), open), order, open)| ==>
              Deliveries(Route(Json(m), open), order, open)[k].env == Forward(m)
    ensures Count(Deliveries(Route(Json(m), open), order, open), y)
              == if IsOpen(open, y) && m.from != Str(y) then 1 else 0
  {
    FanoutCount(order, open, m.from, Forward(m), y);
    forall k | 0 <= k < |Fanout(order, open, m.from, Forward(m))|
      ensures Fanout(order, open, m.from, Forward(m))[k].env == Forward(m)
    {
      FanoutSends(order, open, m.from, Forward(m), k);
    }
  }

  /**
   * Broadcast exclusion trusts the payload: an OPEN sender whose message does
   * not carry its own id in `from` receives its own broadcast.
   */
  lemma SenderReceivesOwnBroadcast(m: Msg, order: seq<Id>, open: map<Id, bool>, sender: Id)
    requires Registry(order, open)
    requires !(Truthy(m.to) && m.to.Str? && m.to.s in open)
    requires m.kind == Str("broadcast")
    requires IsOpen(open, sender) && m.from != Str(sender)
    ensures Count(Deliveries(Route(Json(m), open), order, open), sender) == 1
  {
    BroadcastDelivery(m, order, open, sender);
  }

  /** A message that is neither a unicast nor a broadcast is dropped. */
  lemma UnroutableDropped(m: Msg, order: seq<Id>, open: map<Id, bool>)
    requires !(Truthy(m.to) && m.to.Str? && m.to.s in open)
    requires m.kind != Str("broadcast")
    ensures Deliveries(Route(Json(m), open), order, open) == []
  {
  }
}
