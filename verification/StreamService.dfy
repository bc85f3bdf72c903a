/** The stream service: the table of connected streams (web/stream/service.go).

    Each method of the service holds the service's mutex from start to end, so it is modelled as one
    atomic operation on the table. A stream may also be closed from outside the service at any time,
    when its client leaves (`Client.Close` called by its `Run`); the interleavings inside one stream
    are the subject of the module Stream. */
module StreamService {

  /** What the service sees of a stream: whether it is closed, and what was sent on it. */
  class Client<V> {
    var closed: bool
    var sent: seq<V>

    constructor ()
      ensures !closed && sent == []
    {
      closed, sent := false, [];
    }

    method Close()
      modifies this
      ensures closed && sent == old(sent)
    {
      closed := true;
    }

    method Send(data: V)
      modifies this
      ensures closed == old(closed)
      ensures sent == old(sent) + if closed then [] else [data]
    {
      if !closed {
        sent := sent + [data];
      }
    }
  }

  function Repeat<V>(data: V, n: nat): seq<V> { seq(n, _ => data) }

  /** How many of the identifiers lead to the stream `c`. */
  function Hits<K(==), V>(streams: map<K, Client<V>>, ids: seq<K>, c: Client<V>): nat {
    if |ids| == 0 then 0
    else
      var id := ids[|ids| - 1];
      Hits(streams, ids[..|ids| - 1], c) + if id in streams && streams[id] == c then 1 else 0
  }

  lemma HitsStep<K, V>(streams: map<K, Client<V>>, ids: seq<K>, i: nat, c: Client<V>)
    requires i < |ids|
    ensures Hits(streams, ids[..i + 1], c) == Hits(streams, ids[..i], c) +
            if ids[i] in streams && streams[ids[i]] == c then 1 else 0
  {
    assert ids[..i + 1][..i] == ids[..i];
  }

  lemma RepeatStep<V>(sent: seq<V>, data: V, n: nat)
    ensures sent + Repeat(data, n) + [data] == sent + Repeat(data, n + 1)
    ensures sent + Repeat(data, 0) == sent
  {
  }

  class Service<K(==), V> {
    var streams: map<K, Client<V>>

    /** Every stream ever added, with the identifier it was added under. */
    ghost var added: set<(K, Client<V>)>

    ghost function Clients(): set<Client<V>>
      reads this
    {
      set a | a in added :: a.1
    }

    /** Every stream ever added is the one registered under its identifier, or closed. */
    ghost predicate Valid()
      reads this, Clients()
    {
      && (forall id :: id in streams ==> (id, streams[id]) in added)
      && (forall a :: a in added ==> (a.0 in streams && streams[a.0] == a.1) || a.1.closed)
    }

    constructor ()
      ensures Valid() && streams == map[] && added == {}
    {
      streams, added := map[], {};
    }

    /** `internalRemove`. */
    method Remove(id: K)
      requires Valid()
      modifies this`streams, Clients()
      ensures Valid() && streams == old(streams) - {id}
      ensures id in old(streams) ==> old(streams[id]).closed
      ensures forall c :: c in Clients() ==> (
                && c.sent == old(c.sent)
                && c.closed == (old(c.closed) || (id in old(streams) && c == old(streams[id]))))
    {
      if id in streams {
        var stream := streams[id];
        assert (id, stream) in added;
        stream.Close();
        streams := streams - {id};
      }
    }

    method Add(stream: Client<V>, id: K)
      requires Valid()
      modifies this, Clients()
      ensures Valid() && streams == old(streams)[id := stream] && added == old(added) + {(id, stream)}
      ensures forall c :: c in old(Clients()) ==> (
                && c.sent == old(c.sent)
                && c.closed == (old(c.closed) || (id in old(streams) && c == old(streams[id]))))
    {
      Remove(id);
      streams := streams[id := stream];
      added := added + {(id, stream)};
    }

    method CloseBy(id: K)
      requires Valid()
      modifies this`streams, Clients()
      ensures Valid() && streams == old(streams) - {id}
      ensures id in old(streams) ==> old(streams[id]).closed
      ensures forall c :: c in Clients() ==> (
                && c.sent == old(c.sent)
                && c.closed == (old(c.closed) || (id in old(streams) && c == old(streams[id]))))
    {
      Remove(id);
    }

    /** `Close`: afterwards no stream is registered, so every stream ever added is closed. */
    method Close()
      requires Valid()
      modifies this`streams, Clients()
      ensures Valid() && streams == map[]
      ensures forall c :: c in Clients() ==> c.closed && c.sent == old(c.sent)
    {
      while streams != map[]
        invariant Valid()
        invariant forall c :: c in Clients() ==> c.sent == old(c.sent)
        decreases |streams|
      {
        var id :| id in streams;
        Remove(id);
      }
      forall c | c in Clients() ensures c.closed {
        var a :| a in added && a.1 == c;
      }
    }

    /** `SendTo`: the data goes to the streams of the given identifiers, or to all of them, in some
        order, when none is given. Each open stream gets it once for each identifier that leads to
        it; identifiers without a stream are ignored, and nothing else changes. */
    method SendTo(data: V, ids: seq<K>) returns (ghost order: seq<K>)
      requires Valid()
      modifies Clients()
      ensures Valid()
      ensures ids != [] ==> order == ids
      ensures ids == [] ==> Enumerates(order, streams.Keys)
      ensures forall c :: c in Clients() ==> (
                && c.closed == old(c.closed)
                && c.sent == old(c.sent) + if c.closed then [] else Repeat(data, Hits(streams, order, c)))
    {
      var targets := ids;
      if |ids| == 0 {
        targets := SomeOrder(streams.Keys);
      }
      order := targets;
      forall c | c in Clients() ensures c.sent == c.sent + Repeat(data, Hits(streams, targets[..0], c)) {
        RepeatStep(c.sent, data, 0);
      }
      hide Hits, Repeat, Enumerates;
      for i := 0 to |targets|
        invariant forall c :: c in Clients() ==> (
                    && c.closed == old(c.closed)
                    && c.sent == old(c.sent) + if c.closed then [] else Repeat(data, Hits(streams, targets[..i], c)))
      {
        forall c | c in Clients()
          ensures Hits(streams, targets[..i + 1], c) ==
                  Hits(streams, targets[..i], c) + if targets[i] in streams && streams[targets[i]] == c then 1 else 0
        {
          HitsStep(streams, targets, i, c);
        }
        if targets[i] in streams {
          var stream := streams[targets[i]];
          assert (targets[i], stream) in added;
          RepeatStep(old(stream.sent), data, Hits(streams, targets[..i], stream));
          stream.Send(data);
        }
      }
      assert targets[..|targets|] == targets;
    }
  }

  ghost predicate Enumerates<K>(order: seq<K>, keys: set<K>) {
    && (forall id :: id in keys ==> id in order)
    && (forall id :: id in order ==> id in keys)
    && (forall i, j :: 0 <= i < j < |order| ==> order[i] != order[j])
  }

  /** The order in which a map is walked: any order, each key once. */
  method SomeOrder<K(==)>(keys: set<K>) returns (order: seq<K>)
    ensures Enumerates(order, keys)
  {
    order := [];
    var left := keys;
    while left != {}
      invariant left <= keys
      invariant Enumerates(order, keys - left)
    {
      var id :| id in left;
      order := order + [id];
      left := left - {id};
    }
  }

  /** A client leaving closes its stream behind the service's back; the service stays valid. */
  method ClientLeaves<K(==), V>(service: Service<K, V>, c: Client<V>)
    requires service.Valid()
    modifies c
    ensures service.Valid() && c.closed
  {
    c.Close();
  }

  /** A broadcast reaches a stream registered under exactly one identifier exactly once. */
  lemma {:induction false} HitOnce<K, V>(streams: map<K, Client<V>>, ids: seq<K>, c: Client<V>, id: K)
    requires id in streams && streams[id] == c
    requires forall other :: other in streams && streams[other] == c ==> other == id
    requires forall i, j :: 0 <= i < j < |ids| ==> ids[i] != ids[j]
    ensures Hits(streams, ids, c) == if id in ids then 1 else 0
  {
    if |ids| > 0 {
      HitOnce(streams, ids[..|ids| - 1], c, id);
      if ids[|ids| - 1] == id {
        assert id !in ids[..|ids| - 1];
      }
    }
  }
}
