/** The order of what each connection receives, over any interleaving of
    the `/ws` handler's events: the welcome comes first and only once. */
module Transcripts {
  import opened Wrappers
  import opened Protocol
  import opened Connections
  import opened Hub

  /** A connection stands for a socket object, which is never reopened once
      closed: no event of a trace names a connection that a later event
      opens. */
  ghost predicate FreshOpens(events: seq<Event>) {
    forall i, j :: 0 <= i < j < |events| && events[j].Open? ==> events[i].conn != events[j].conn
  }

  /** Some event of `events` opens `c`. */
  ghost predicate Opened(c: ConnId, events: seq<Event>) {
    exists i :: 0 <= i < |events| && events[i].Open? && events[i].conn == c
  }

  /** No send before position `k` goes to the connection `sends[k]` goes to. */
  ghost predicate FirstSendTo(sends: seq<Send>, k: nat)
    requires k < |sends|
  {
    forall j :: 0 <= j < k ==> sends[j].to != sends[k].to
  }

  /** No reply or format error is the welcome. */
  lemma AnswerIsNeverWelcome(frame: Frame, replySent: bool)
    ensures forall i :: 0 <= i < |Answer(frame, replySent)| ==> Answer(frame, replySent)[i] != Welcome
  {
    ReplyIsNeverWelcome(frame);
    assert InvalidFormat.kind != Welcome.kind;
  }

  /** What the first event of a trace without reopened connections says
      about the connections the rest of it opens. */
  lemma OpenedInRest(events: seq<Event>)
    requires |events| > 0 && FreshOpens(events)
    ensures FreshOpens(events[1..])
    ensures forall c :: Opened(c, events[1..]) ==> Opened(c, events) && c != events[0].conn
    ensures !events[0].Open? ==> forall c :: Opened(c, events) ==> Opened(c, events[1..])
  {
    var rest := events[1..];
    forall i, j | 0 <= i < j < |rest| && rest[j].Open? ensures rest[i].conn != rest[j].conn {
      assert rest[i] == events[i + 1] && rest[j] == events[j + 1];
    }
    forall c | Opened(c, rest) ensures Opened(c, events) && c != events[0].conn {
      var i :| 0 <= i < |rest| && rest[i].Open? && rest[i].conn == c;
      assert events[i + 1] == rest[i];
    }
    if !events[0].Open? {
      forall c | Opened(c, events) ensures Opened(c, rest) {
        var i :| 0 <= i < |events| && events[i].Open? && events[i].conn == c;
        assert i > 0 && rest[i - 1] == events[i];
      }
    }
  }

  /** The welcome discipline over any interleaving of connections, whatever
      the outcome of each reply: a send is the welcome exactly when it is the
      first send to a connection that was not open at the start. So every
      connection the trace opens receives the welcome before anything else
      and never again, and every send goes to a connection that was open at
      the start or that the trace opens. */
  lemma {:induction false} WelcomeFirst(reg: Registry, live: map<ConnId, string>, events: seq<Event>)
    requires ValidTrace(live, events) && FreshOpens(events)
    ensures var sends := Run(reg, events).1;
      && (forall k :: 0 <= k < |sends| ==> sends[k].to in live || Opened(sends[k].to, events))
      && (forall k :: 0 <= k < |sends| ==> (sends[k].msg == Welcome <==> sends[k].to !in live && FirstSendTo(sends, k)))
      && (forall c :: Opened(c, events) ==> c !in live && Send(c, Welcome) in sends)
    decreases |events|
  {
    if |events| > 0 {
      var e, rest := events[0], events[1..];
      assert events == [e] + rest;
      var r1 := Step(reg, e).0;
      RunFirst(reg, e, rest);
      OpenedInRest(events);
      match e
      case Open(q, c) =>
        WelcomeFirst(r1, live[c := UserIdOf(q)], rest);
        WelcomeFirstOpen(live, q, c, Run(r1, rest).1, events, rest);
      case Inbound(u, c, frame, sent) =>
        AnswerIsNeverWelcome(frame, sent);
        WelcomeFirst(r1, live, rest);
        WelcomeFirstTail(live, live, c, Step(reg, e).1, Run(r1, rest).1, events, rest);
      case Closed(u, c) =>
        WelcomeFirst(r1, live - {c}, rest);
        WelcomeFirstTail(live, live - {c}, c, [], Run(r1, rest).1, events, rest);
    }
  }

  /** The step case of `WelcomeFirst` for a connect of `c`. */
  lemma WelcomeFirstOpen(live: map<ConnId, string>, q: Option<string>, c: ConnId,
                                            s2: seq<Send>, events: seq<Event>, rest: seq<Event>)
    requires c !in live && events == [Open(q, c)] + rest
    requires var live' := live[c := UserIdOf(q)];
      && (forall k :: 0 <= k < |s2| ==> s2[k].to in live' || Opened(s2[k].to, rest))
      && (forall k :: 0 <= k < |s2| ==> (s2[k].msg == Welcome <==> s2[k].to !in live' && FirstSendTo(s2, k)))
      && (forall d :: Opened(d, rest) ==> d !in live' && Send(d, Welcome) in s2)
    requires forall d :: Opened(d, rest) ==> Opened(d, events) && d != c
    ensures var sends := [Send(c, Welcome)] + s2;
      && (forall k :: 0 <= k < |sends| ==> sends[k].to in live || Opened(sends[k].to, events))
      && (forall k :: 0 <= k < |sends| ==> (sends[k].msg == Welcome <==> sends[k].to !in live && FirstSendTo(sends, k)))
      && (forall d :: Opened(d, events) ==> d !in live && Send(d, Welcome) in sends)
  {
    var sends := [Send(c, Welcome)] + s2;
    assert Opened(c, events) by { assert events[0].Open? && events[0].conn == c; }
    forall k | 1 <= k < |sends|
      ensures sends[k].to in live || Opened(sends[k].to, events)
      ensures sends[k].msg == Welcome <==> sends[k].to !in live && FirstSendTo(sends, k)
    {
      assert sends[k] == s2[k - 1];
      if sends[k].to != c {
        if FirstSendTo(s2, k - 1) {
          forall j | 0 <= j < k ensures sends[j].to != sends[k].to {
            if j > 0 { assert sends[j] == s2[j - 1]; }
          }
        }
        if FirstSendTo(sends, k) {
          forall j | 0 <= j < k - 1 ensures s2[j].to != s2[k - 1].to {
            assert sends[j + 1] == s2[j];
          }
        }
      } else {
        assert !FirstSendTo(sends, k) by { assert sends[0].to == sends[k].to; }
      }
    }
    forall d | Opened(d, events) ensures d !in live && Send(d, Welcome) in sends {
      if d != c {
        var i :| 0 <= i < |events| && events[i].Open? && events[i].conn == d;
        assert i > 0 && rest[i - 1] == events[i];
        assert Opened(d, rest);
      }
    }
  }

  /** The step case of `WelcomeFirst` for a frame or a close on `c`: the
      step's own sends are no welcome and go to `c`, which was open, and the
      rest of the trace never opens `c` again. */
  lemma WelcomeFirstTail(live: map<ConnId, string>, live': map<ConnId, string>, c: ConnId,
                                            s1: seq<Send>, s2: seq<Send>, events: seq<Event>, rest: seq<Event>)
    requires c in live && (live' == live || live' == live - {c})
    requires live' == live - {c} ==> s1 == []
    requires forall k :: 0 <= k < |s1| ==> s1[k].to == c && s1[k].msg != Welcome
    requires forall k :: 0 <= k < |s2| ==> s2[k].to in live' || Opened(s2[k].to, rest)
    requires forall k :: 0 <= k < |s2| ==> (s2[k].msg == Welcome <==> s2[k].to !in live' && FirstSendTo(s2, k))
    requires forall d :: Opened(d, rest) ==> d !in live' && Send(d, Welcome) in s2
    requires forall d :: Opened(d, rest) ==> Opened(d, events) && d != c
    requires forall d :: Opened(d, events) ==> Opened(d, rest)
    ensures var sends := s1 + s2;
      && (forall k :: 0 <= k < |sends| ==> sends[k].to in live || Opened(sends[k].to, events))
      && (forall k :: 0 <= k < |sends| ==> (sends[k].msg == Welcome <==> sends[k].to !in live && FirstSendTo(sends, k)))
      && (forall d :: Opened(d, events) ==> d !in live && Send(d, Welcome) in sends)
  {
    var sends := s1 + s2;
    forall k | 0 <= k < |sends|
      ensures sends[k].to in live || Opened(sends[k].to, events)
      ensures sends[k].msg == Welcome <==> sends[k].to !in live && FirstSendTo(sends, k)
    {
      if k < |s1| {
        assert sends[k] == s1[k];
      } else {
        var k2 := k - |s1|;
        assert sends[k] == s2[k2];
        var d := sends[k].to;
        if d != c {
          if FirstSendTo(s2, k2) {
            forall j | 0 <= j < k ensures sends[j].to != d {
              if j < |s1| { assert sends[j] == s1[j]; } else { assert sends[j] == s2[j - |s1|]; }
            }
          }
          if FirstSendTo(sends, k) {
            forall j | 0 <= j < k2 ensures s2[j].to != d {
              assert sends[j + |s1|] == s2[j];
            }
          }
        } else if live' != live {
          assert false;
        }
      }
    }
    forall d | Opened(d, events) ensures d !in live && Send(d, Welcome) in sends {
      assert Opened(d, rest);
      var k :| 0 <= k < |s2| && s2[k] == Send(d, Welcome);
      assert sends[|s1| + k] == s2[k];
    }
  }
}
