/** The two broadcasts of src/services/websocket.ts. Each visits
    connections in registry order and tries one send per connection; a send
    that throws is logged and the loop goes on. Whether the send to a
    connection succeeds is the input `ok`. */
module Broadcast {
  import opened Wrappers
  import opened Connections
  import Seqs

  /** `broadcastToAll`: every registered connection is tried exactly once,
      user by user in Map order and within a user in list order, and every
      connection whose send succeeds receives the message, whatever failed
      before it. */
  method BroadcastToAll(reg: Registry, ok: ConnId -> bool) returns (attempted: seq<ConnId>, delivered: seq<ConnId>)
    ensures attempted == Conns(reg)
    ensures delivered == Seqs.Filter(attempted, ok)
  {
    attempted, delivered := [], [];
    var i := 0;
    while i < |reg|
      invariant 0 <= i <= |reg|
      invariant attempted == Conns(reg[..i])
      invariant delivered == Seqs.Filter(attempted, ok)
    {
      var sent;
      attempted, sent := TrySend(attempted, reg[i].conns, ok);
      delivered := delivered + sent;
      Seqs.FilterAppend(Conns(reg[..i]), reg[i].conns, ok);
      ConnsPrefix(reg, i);
      i := i + 1;
    }
    assert reg[..i] == reg;
  }

  /** Tries each connection of `cs` in order, after those of `before`:
      every one is attempted and the successful ones are delivered. */
  method TrySend(before: seq<ConnId>, cs: seq<ConnId>, ok: ConnId -> bool) returns (attempted: seq<ConnId>, delivered: seq<ConnId>)
    ensures attempted == before + cs
    ensures delivered == Seqs.Filter(cs, ok)
  {
    attempted, delivered := before, [];
    var j := 0;
    while j < |cs|
      invariant 0 <= j <= |cs|
      invariant attempted == before + cs[..j]
      invariant delivered == Seqs.Filter(cs[..j], ok)
    {
      Seqs.FilterAppend(cs[..j], [cs[j]], ok);
      if ok(cs[j]) {
        delivered := delivered + [cs[j]];
      }
      attempted := attempted + [cs[j]];
      assert cs[..j + 1] == cs[..j] + [cs[j]];
      j := j + 1;
    }
    assert cs[..j] == cs;
  }

  /** `broadcastToUser`: the connections of `u` are tried in list order, and
      nothing is tried when `u` has no entry. */
  method BroadcastToUser(reg: Registry, u: string, ok: ConnId -> bool) returns (attempted: seq<ConnId>, delivered: seq<ConnId>)
    ensures Lookup(reg, u).None? ==> attempted == []
    ensures Lookup(reg, u).Some? ==> attempted == Lookup(reg, u).value
    ensures delivered == Seqs.Filter(attempted, ok)
    ensures forall c :: c in attempted ==> c in Conns(reg)
  {
    attempted, delivered := [], [];
    match Lookup(reg, u)
    case None =>
    case Some(cs) =>
      attempted, delivered := TrySend([], cs, ok);
      assert attempted == cs;
      forall c | c in attempted ensures c in Conns(reg) {
        LookupInConns(reg, u, c);
      }
  }
}
