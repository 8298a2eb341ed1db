/** The `/ws` handler of src/services/websocket.ts as a step function over
    the connection registry: a connection opens, frames arrive on it, it
    closes. Each step returns the new registry and the envelopes it tries
    to send; whether a send succeeds is an input. */
module Hub {
  import opened Wrappers
  import opened Protocol
  import opened Connections
  import Seqs

  /** `req.query.userId || 'anonymous'`: a missing or empty query value
      registers the connection under "anonymous". */
  function UserIdOf(query: Option<string>): (u: string)
    ensures u != ""
    ensures query.Some? && query.value != "" ==> u == query.value
    ensures query.None? || query.value == "" ==> u == "anonymous"
  {
    match query
    case Some(s) => if s != "" then s else "anonymous"
    case None => "anonymous"
  }

  datatype Event =
      /** A socket upgraded with the given `userId` query value. */
    | Open(query: Option<string>, conn: ConnId)
      /** A frame arrived on a connection registered under `userId`;
          `replySent` says whether sending the reply succeeded. */
    | Inbound(userId: string, conn: ConnId, frame: Frame, replySent: bool)
      /** The socket of a connection registered under `userId` closed. */
    | Closed(userId: string, conn: ConnId)

  /** One attempted send of an envelope to a connection. */
  datatype Send = Send(to: ConnId, msg: Envelope)

  /** The `message` handler: the attempted sends for one frame. A frame that
      does not parse gets the format error. A parsed frame gets its reply;
      the reply's send sits inside the same `try`, so when it throws the
      handler attempts the format error as well. */
  function Answer(frame: Frame, replySent: bool): (sends: seq<Envelope>)
    ensures |sends| >= 1 && sends[0] == Reply(frame)
    ensures frame.Malformed? ==> sends == [InvalidFormat]
    ensures replySent ==> sends == [Reply(frame)]
    ensures frame.Message? && !replySent ==> sends == [Reply(frame), InvalidFormat]
    ensures forall i :: 0 < i < |sends| ==> sends[i] == InvalidFormat
  {
    match frame
    case Malformed => [InvalidFormat]
    case Message(_, _) => if replySent then [Reply(frame)] else [Reply(frame), InvalidFormat]
  }

  /** One step of the hub. */
  function Step(reg: Registry, e: Event): (result: (Registry, seq<Send>))
    ensures e.Open? ==>
              var u := UserIdOf(e.query);
              && Lookup(result.0, u) == Some(Lookup(reg, u).GetOr([]) + [e.conn])
              && result.1 == [Send(e.conn, Welcome)]
    ensures e.Inbound? ==>
              && result.0 == reg
              && |result.1| >= 1
              && (forall i :: 0 <= i < |result.1| ==> result.1[i].to == e.conn)
    ensures e.Inbound? && e.frame.Malformed? ==> result.1 == [Send(e.conn, InvalidFormat)]
    ensures e.Closed? ==> result.1 == []
    ensures WellFormed(reg) ==> WellFormed(result.0)
  {
    match e
    case Open(query, c) => (Register(reg, UserIdOf(query), c), [Send(c, Welcome)])
    case Inbound(_, c, frame, sent) =>
      var answers := Answer(frame, sent);
      (reg, seq(|answers|, i requires 0 <= i < |answers| => Send(c, answers[i])))
    case Closed(u, c) => (Close(reg, u, c), [])
  }

  /** Runs a sequence of steps, collecting every attempted send in order. */
  function Run(reg: Registry, events: seq<Event>): (Registry, seq<Send>)
    decreases |events|
  {
    if |events| == 0 then (reg, [])
    else
      var (r1, s1) := Step(reg, events[0]);
      var (r2, s2) := Run(r1, events[1..]);
      (r2, s1 + s2)
  }

  /** The frames of one connection, each of whose replies is sent successfully. */
  function Frames(u: string, c: ConnId, frames: seq<Frame>): seq<Event> {
    seq(|frames|, i requires 0 <= i < |frames| => Inbound(u, c, frames[i], true))
  }

  /** A session: a connection opens and then receives `frames`. It gets the
      welcome first, then exactly one reply per frame in arrival order, and
      the welcome never again. */
  lemma {:induction false} SessionTranscript(reg: Registry, query: Option<string>, c: ConnId, frames: seq<Frame>)
    ensures var sends := Run(reg, [Open(query, c)] + Frames(UserIdOf(query), c, frames)).1;
      && |sends| == 1 + |frames|
      && sends[0] == Send(c, Welcome)
      && (forall i :: 0 <= i < |frames| ==> sends[i + 1] == Send(c, Reply(frames[i])))
      && (forall i :: 0 < i < |sends| ==> sends[i].msg != Welcome)
  {
    var u := UserIdOf(query);
    var r1 := Register(reg, u, c);
    RunFirst(reg, Open(query, c), Frames(u, c, frames));
    FramesTranscript(r1, u, c, frames);
    forall i | 0 <= i < |frames| ensures Reply(frames[i]) != Welcome {
      ReplyIsNeverWelcome(frames[i]);
    }
  }

  /** Running `e` and then `rest` is stepping `e` and running `rest` after it. */
  lemma {:induction false} RunFirst(reg: Registry, e: Event, rest: seq<Event>)
    ensures var (r1, s1) := Step(reg, e);
      Run(reg, [e] + rest) == (Run(r1, rest).0, s1 + Run(r1, rest).1)
  {
    assert ([e] + rest)[1..] == rest;
  }

  lemma {:induction false} FramesTranscript(reg: Registry, u: string, c: ConnId, frames: seq<Frame>)
    ensures var (r, sends) := Run(reg, Frames(u, c, frames));
      && r == reg
      && |sends| == |frames|
      && (forall i :: 0 <= i < |frames| ==> sends[i] == Send(c, Reply(frames[i])))
    decreases |frames|
  {
    if |frames| > 0 {
      var events := Frames(u, c, frames);
      assert events[1..] == Frames(u, c, frames[1..]);
      FramesTranscript(reg, u, c, frames[1..]);
    }
  }

  /** The registry mirrors the open connections `live` (each mapped to the
      user it registered under): it is well formed, holds every live
      connection exactly once and nothing else, and files each under its
      user. */
  ghost predicate Tracks(reg: Registry, live: map<ConnId, string>) {
    && WellFormed(reg)
    && (forall c :: multiset(Conns(reg))[c] == if c in live then 1 else 0)
    && (forall c :: c in live ==> Lookup(reg, live[c]).Some? && c in Lookup(reg, live[c]).value)
  }

  /** Opening a fresh connection keeps the registry in step with the open connections. */
  lemma OpenKeepsTracks(reg: Registry, live: map<ConnId, string>, query: Option<string>, c: ConnId)
    requires Tracks(reg, live) && c !in live
    ensures Tracks(Step(reg, Open(query, c)).0, live[c := UserIdOf(query)])
  {
    var u := UserIdOf(query);
    var r := Register(reg, u, c);
    assert Step(reg, Open(query, c)).0 == r;
    OpenCounts(reg, live, u, c);
    OpenOwners(reg, live, u, c);
    assert WellFormed(r);
  }

  lemma OpenCounts(reg: Registry, live: map<ConnId, string>, u: string, c: ConnId)
    requires Tracks(reg, live) && c !in live
    ensures forall d :: multiset(Conns(Register(reg, u, c)))[d] == if d in live[c := u] then 1 else 0
  {
    var r := Register(reg, u, c);
    assert multiset(Conns(r)) == multiset(Conns(reg)) + multiset{c};
  }

  lemma OpenOwners(reg: Registry, live: map<ConnId, string>, u: string, c: ConnId)
    requires Tracks(reg, live) && c !in live
    ensures var r, live' := Register(reg, u, c), live[c := u];
      forall d :: d in live' ==> Lookup(r, live'[d]).Some? && d in Lookup(r, live'[d]).value
  {
    var r, live' := Register(reg, u, c), live[c := u];
    forall d | d in live' ensures Lookup(r, live'[d]).Some? && d in Lookup(r, live'[d]).value {
      if d != c && live[d] == u {
        assert Lookup(r, u) == Some(Lookup(reg, u).value + [c]);
      }
    }
  }

  /** Closing an open connection removes exactly it and keeps the registry in
      step with the remaining open connections. */
  lemma CloseKeepsTracks(reg: Registry, live: map<ConnId, string>, c: ConnId)
    requires Tracks(reg, live) && c in live
    ensures Tracks(Step(reg, Closed(live[c], c)).0, live - {c})
  {
    var u := live[c];
    var r := Close(reg, u, c);
    assert Step(reg, Closed(u, c)).0 == r;
    CloseCounts(reg, live, c);
    CloseOwners(reg, live, c);
    assert WellFormed(r);
  }

  lemma CloseCounts(reg: Registry, live: map<ConnId, string>, c: ConnId)
    requires Tracks(reg, live) && c in live
    ensures forall d :: multiset(Conns(Close(reg, live[c], c)))[d] == if d in live - {c} then 1 else 0
  {
    var r := Close(reg, live[c], c);
    assert multiset(Conns(r)) + multiset{c} == multiset(Conns(reg));
  }

  lemma CloseOwners(reg: Registry, live: map<ConnId, string>, c: ConnId)
    requires Tracks(reg, live) && c in live
    ensures var r, live' := Close(reg, live[c], c), live - {c};
      forall d :: d in live' ==> Lookup(r, live'[d]).Some? && d in Lookup(r, live'[d]).value
  {
    var u := live[c];
    var r, live' := Close(reg, u, c), live - {c};
    var rest := Seqs.RemoveFirst(Lookup(reg, u).value, c);
    forall d | d in live' ensures Lookup(r, live'[d]).Some? && d in Lookup(r, live'[d]).value {
      if live[d] == u {
        assert d in rest;
      }
    }
  }

  /** Closing a connection that is not open changes nothing. */
  lemma CloseUnknownIsNoOp(reg: Registry, live: map<ConnId, string>, u: string, c: ConnId)
    requires Tracks(reg, live) && c !in live
    ensures Step(reg, Closed(u, c)).0 == reg
  {
    if Lookup(reg, u).Some? && c in Lookup(reg, u).value {
      LookupInConns(reg, u, c);
      assert false;
    }
    CloseAbsentIsNoOp(reg, u, c);
  }

  /** A sequence of events the transport can produce from open connections
      `live`: an opened connection is new, a frame arrives only on an open
      connection and names the user it registered with, and a closed one is
      open and closes under that user. */
  ghost predicate ValidTrace(live: map<ConnId, string>, events: seq<Event>)
    decreases |events|
  {
    |events| == 0 ||
      var e := events[0];
      match e
      case Open(q, c) => c !in live && ValidTrace(live[c := UserIdOf(q)], events[1..])
      case Inbound(u, c, _, _) => c in live && live[c] == u && ValidTrace(live, events[1..])
      case Closed(u, c) => c in live && live[c] == u && ValidTrace(live - {c}, events[1..])
  }

  /** The open connections after a valid trace. */
  ghost function LiveAfter(live: map<ConnId, string>, events: seq<Event>): map<ConnId, string>
    decreases |events|
  {
    if |events| == 0 then live
    else
      match events[0]
      case Open(q, c) => LiveAfter(live[c := UserIdOf(q)], events[1..])
      case Inbound(_, _, _, _) => LiveAfter(live, events[1..])
      case Closed(_, c) => LiveAfter(live - {c}, events[1..])
  }

  /** Along any valid trace the registry holds exactly the open connections,
      each once, filed under its user, with no user left mapped to an empty
      list. */
  lemma {:induction false} TraceKeepsTracks(reg: Registry, live: map<ConnId, string>, events: seq<Event>)
    requires Tracks(reg, live) && ValidTrace(live, events)
    ensures Tracks(Run(reg, events).0, LiveAfter(live, events))
    decreases |events|
  {
    if |events| > 0 {
      var e := events[0];
      var r1 := Step(reg, e).0;
      match e
      case Open(q, c) =>
        OpenKeepsTracks(reg, live, q, c);
        TraceKeepsTracks(r1, live[c := UserIdOf(q)], events[1..]);
      case Inbound(_, _, _, _) =>
        TraceKeepsTracks(r1, live, events[1..]);
      case Closed(u, c) =>
        CloseKeepsTracks(reg, live, c);
        TraceKeepsTracks(r1, live - {c}, events[1..]);
    }
  }

  /** The empty registry tracks no connections; together with
      `TraceKeepsTracks` this covers every trace from server start. */
  lemma EmptyTracksNothing()
    ensures Tracks([], map[])
  {
  }
}
