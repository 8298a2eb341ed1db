/** The WebSocket hub's connection registry (src/services/websocket.ts):
    a JavaScript `Map<userId, SocketStream[]>`. A JavaScript Map iterates
    in insertion order, so it is modelled as a sequence of entries with
    distinct user ids; a connection is modelled by its identity. */
module Connections {
  import opened Wrappers
  import Seqs

  /** The identity of one live socket. */
  type ConnId = nat

  datatype Entry = Entry(userId: string, conns: seq<ConnId>)

  /** The entries in the Map's insertion order. */
  type Registry = seq<Entry>

  /** The Map's keys, in iteration order. */
  function Users(reg: Registry): (us: seq<string>)
    ensures |us| == |reg|
    ensures forall i :: 0 <= i < |reg| ==> us[i] == reg[i].userId
  {
    seq(|reg|, i requires 0 <= i < |reg| => reg[i].userId)
  }

  /** `connections.get(userId)`: the user's connection list, if the key exists. */
  function Lookup(reg: Registry, u: string): Option<seq<ConnId>> {
    var i := Seqs.IndexOf(Users(reg), u);
    if i < 0 then None else Some(reg[i].conns)
  }

  ghost predicate DistinctUsers(reg: Registry) {
    forall i, j :: 0 <= i < j < |reg| ==> reg[i].userId != reg[j].userId
  }

  /** No key maps to an empty list. */
  ghost predicate NoEmptyEntry(reg: Registry) {
    forall i :: 0 <= i < |reg| ==> |reg[i].conns| > 0
  }

  ghost predicate WellFormed(reg: Registry) {
    DistinctUsers(reg) && NoEmptyEntry(reg)
  }

  /** Every registered connection, user by user in Map order and within a user
      in list order: the order in which `broadcastToAll` visits them. */
  function Conns(reg: Registry): seq<ConnId> {
    if |reg| == 0 then [] else Conns(reg[..|reg| - 1]) + reg[|reg| - 1].conns
  }

  /** The registered connections of the first `i + 1` entries. */
  lemma ConnsPrefix(reg: Registry, i: nat)
    requires i < |reg|
    ensures Conns(reg[..i + 1]) == Conns(reg[..i]) + reg[i].conns
  {
    assert reg[..i + 1][..i] == reg[..i];
  }

  lemma {:induction false} ConnsConcat(a: Registry, b: Registry)
    ensures Conns(a + b) == Conns(a) + Conns(b)
  {
    if |b| == 0 {
      assert a + b == a;
    } else {
      assert (a + b)[..|a + b| - 1] == a + b[..|b| - 1];
      ConnsConcat(a, b[..|b| - 1]);
    }
  }

  /** Replacing an entry by one with the same user id changes only that user's list. */
  lemma LookupAfterUpdate(reg: Registry, i: nat, e: Entry)
    requires i < |reg| && e.userId == reg[i].userId
    requires Seqs.IndexOf(Users(reg), e.userId) == i
    ensures Lookup(reg[i := e], e.userId) == Some(e.conns)
    ensures forall v :: v != e.userId ==> Lookup(reg[i := e], v) == Lookup(reg, v)
  {
    assert Users(reg[i := e]) == Users(reg);
  }

  /** Appending an entry for a new user changes no existing user's list. */
  lemma LookupAfterAppend(reg: Registry, e: Entry)
    requires e.userId !in Users(reg)
    ensures Lookup(reg + [e], e.userId) == Some(e.conns)
    ensures forall v :: v != e.userId ==> Lookup(reg + [e], v) == Lookup(reg, v)
  {
    var us := Users(reg + [e]);
    assert us == Users(reg) + [e.userId];
    assert us[..|reg|] == Users(reg);
    Seqs.IndexOfIs(us, e.userId, |reg|);
    forall v | v != e.userId
      ensures Lookup(reg + [e], v) == Lookup(reg, v)
    {
      var j := Seqs.IndexOf(Users(reg), v);
      if j >= 0 {
        assert us[..j] == Users(reg)[..j];
      }
      Seqs.IndexOfIs(us, v, j);
    }
  }

  /** Deleting the entry at `i` changes no other user's list. */
  lemma LookupOtherAfterDelete(reg: Registry, i: nat, v: string)
    requires i < |reg| && v != reg[i].userId
    requires Seqs.IndexOf(Users(reg), reg[i].userId) == i
    ensures Lookup(Seqs.RemoveAt(reg, i), v) == Lookup(reg, v)
  {
    var r := Seqs.RemoveAt(reg, i);
    assert Users(r) == Seqs.RemoveAt(Users(reg), i);
    Seqs.IndexOfAfterRemove(Users(reg), i, v);
  }

  /** With distinct user ids, deleting a user's entry removes the user. */
  lemma LookupSelfAfterDelete(reg: Registry, i: nat)
    requires i < |reg| && DistinctUsers(reg)
    ensures Lookup(Seqs.RemoveAt(reg, i), reg[i].userId) == None
  {
    var r := Seqs.RemoveAt(reg, i);
    var u := reg[i].userId;
    var rs := Users(r);
    forall k | 0 <= k < |rs| ensures rs[k] != u {
      if k >= i { assert reg[k + 1].userId != reg[i].userId; }
    }
  }

  /** The `/ws` connect path: append the connection to the user's list,
      creating the key (at the end of the Map's order) when it is absent. */
  function Register(reg: Registry, u: string, c: ConnId): (r: Registry)
    ensures Lookup(r, u) == Some(Lookup(reg, u).GetOr([]) + [c])
    ensures forall v :: v != u ==> Lookup(r, v) == Lookup(reg, v)
    ensures Users(r) == if Lookup(reg, u).Some? then Users(reg) else Users(reg) + [u]
    ensures WellFormed(reg) ==> WellFormed(r)
    ensures multiset(Conns(r)) == multiset(Conns(reg)) + multiset{c}
  {
    var i := Seqs.IndexOf(Users(reg), u);
    if i < 0 then
      RegisterNewUser(reg, u, c);
      assert Lookup(reg, u).GetOr([]) + [c] == [c];
      reg + [Entry(u, [c])]
    else
      RegisterKnownUser(reg, i, c);
      reg[i := Entry(u, reg[i].conns + [c])]
  }

  /** The facts `Register` states, for a user without an entry. */
  lemma {:induction false} RegisterNewUser(reg: Registry, u: string, c: ConnId)
    requires u !in Users(reg)
    ensures var r := reg + [Entry(u, [c])];
      && Lookup(r, u) == Some([c])
      && (forall v :: v != u ==> Lookup(r, v) == Lookup(reg, v))
      && Users(r) == Users(reg) + [u]
      && (WellFormed(reg) ==> WellFormed(r))
      && multiset(Conns(r)) == multiset(Conns(reg)) + multiset{c}
  {
    var e := Entry(u, [c]);
    LookupAfterAppend(reg, e);
    ConnsConcat(reg, [e]);
    assert Conns([e]) == [c] by { assert [e][..0] == []; }
    assert Users(reg + [e]) == Users(reg) + [u];
    if WellFormed(reg) {
      forall k | 0 <= k < |reg| ensures reg[k].userId != u {
        assert Users(reg)[k] == reg[k].userId;
      }
    }
  }

  /** The facts `Register` states, for a user whose entry is at `i`. */
  lemma RegisterKnownUser(reg: Registry, i: nat, c: ConnId)
    requires i < |reg| && Seqs.IndexOf(Users(reg), reg[i].userId) == i
    ensures var e := Entry(reg[i].userId, reg[i].conns + [c]);
      var r := reg[i := e];
      && Lookup(r, e.userId) == Some(reg[i].conns + [c])
      && (forall v :: v != e.userId ==> Lookup(r, v) == Lookup(reg, v))
      && Users(r) == Users(reg)
      && (WellFormed(reg) ==> WellFormed(r))
      && multiset(Conns(r)) == multiset(Conns(reg)) + multiset{c}
  {
    var e := Entry(reg[i].userId, reg[i].conns + [c]);
    LookupAfterUpdate(reg, i, e);
    ConnsAround(reg, i, e);
    WellFormedAfterUpdate(reg, i, e);
    assert Users(reg[i := e]) == Users(reg);
  }

  /** Replacing entry `i` replaces its connections in the flattening. */
  lemma ConnsAround(reg: Registry, i: nat, e: Entry)
    requires i < |reg|
    ensures Conns(reg) == Conns(reg[..i]) + reg[i].conns + Conns(reg[i + 1..])
    ensures Conns(reg[i := e]) == Conns(reg[..i]) + e.conns + Conns(reg[i + 1..])
  {
    SplitAt(reg, i);
    SplitAt(reg[i := e], i);
    assert reg[i := e][..i] == reg[..i];
    assert reg[i := e][i + 1..] == reg[i + 1..];
  }

  lemma {:induction false} SplitAt(reg: Registry, i: nat)
    requires i < |reg|
    ensures Conns(reg) == Conns(reg[..i]) + reg[i].conns + Conns(reg[i + 1..])
  {
    var pre, mid, post := reg[..i], [reg[i]], reg[i + 1..];
    var pm := pre + mid;
    assert reg == pm + post;
    assert Conns(mid) == reg[i].conns by { assert mid[..0] == []; }
    ConnsConcat(pm, post);
    assert Conns(reg) == Conns(pm) + Conns(post);
    ConnsConcat(pre, mid);
    assert Conns(pm) == Conns(pre) + reg[i].conns;
  }

  /** A connection filed under a user is among the registered connections. */
  lemma {:induction false} LookupInConns(reg: Registry, u: string, c: ConnId)
    requires Lookup(reg, u).Some? && c in Lookup(reg, u).value
    ensures c in Conns(reg)
  {
    var i := Seqs.IndexOf(Users(reg), u);
    SplitAt(reg, i);
  }

  /** The `close` handler: remove the first occurrence of the connection from
      its user's list and delete the key when the list becomes empty; an
      unknown user is left alone. */
  function Close(reg: Registry, u: string, c: ConnId): (r: Registry)
    ensures Lookup(reg, u).None? ==> r == reg
    ensures DistinctUsers(reg) && Lookup(reg, u).Some? ==>
              var rest := Seqs.RemoveFirst(Lookup(reg, u).value, c);
              Lookup(r, u) == if |rest| == 0 then None else Some(rest)
    ensures forall v :: v != u ==> Lookup(r, v) == Lookup(reg, v)
    ensures WellFormed(reg) ==> WellFormed(r)
    ensures Lookup(reg, u).Some? && c in Lookup(reg, u).value ==>
              multiset(Conns(r)) + multiset{c} == multiset(Conns(reg))
  {
    var i := Seqs.IndexOf(Users(reg), u);
    if i < 0 then reg
    else
      var rest := Seqs.RemoveFirst(reg[i].conns, c);
      if |rest| == 0 then
        CloseDeletes(reg, i, c);
        Seqs.RemoveAt(reg, i)
      else
        CloseShortens(reg, i, c);
        reg[i := Entry(u, rest)]
  }

  /** Closing keeps the Map's key order: the keys stay as they were, except
      that a key whose list became empty drops out of its place. */
  lemma {:induction false} CloseKeyOrder(reg: Registry, u: string, c: ConnId)
    ensures var i := Seqs.IndexOf(Users(reg), u);
      Users(Close(reg, u, c)) ==
        if i >= 0 && |Seqs.RemoveFirst(reg[i].conns, c)| == 0 then Seqs.RemoveAt(Users(reg), i) else Users(reg)
  {
    var i := Seqs.IndexOf(Users(reg), u);
    if i >= 0 {
      if |Seqs.RemoveFirst(reg[i].conns, c)| == 0 {
        CloseDeletes(reg, i, c);
      } else {
        CloseShortens(reg, i, c);
      }
    }
  }

  /** The facts `Close` states, for the branch that keeps the shortened list. */
  lemma {:induction false} CloseShortens(reg: Registry, i: nat, c: ConnId)
    requires i < |reg| && Seqs.IndexOf(Users(reg), reg[i].userId) == i
    requires |Seqs.RemoveFirst(reg[i].conns, c)| > 0
    ensures var e := Entry(reg[i].userId, Seqs.RemoveFirst(reg[i].conns, c));
      var r := reg[i := e];
      && Lookup(r, e.userId) == Some(e.conns)
      && (forall v :: v != e.userId ==> Lookup(r, v) == Lookup(reg, v))
      && (WellFormed(reg) ==> WellFormed(r))
      && (c in reg[i].conns ==> multiset(Conns(r)) + multiset{c} == multiset(Conns(reg)))
      && Users(r) == Users(reg)
  {
    var e := Entry(reg[i].userId, Seqs.RemoveFirst(reg[i].conns, c));
    assert Users(reg[i := e]) == Users(reg);
    LookupAfterUpdate(reg, i, e);
    ConnsAround(reg, i, e);
    WellFormedAfterUpdate(reg, i, e);
  }

  /** The facts `Close` states, for the branch that deletes the entry. */
  lemma {:induction false} CloseDeletes(reg: Registry, i: nat, c: ConnId)
    requires i < |reg| && Seqs.IndexOf(Users(reg), reg[i].userId) == i
    requires |Seqs.RemoveFirst(reg[i].conns, c)| == 0
    ensures var r := Seqs.RemoveAt(reg, i);
      && (forall v :: v != reg[i].userId ==> Lookup(r, v) == Lookup(reg, v))
      && (DistinctUsers(reg) ==> Lookup(r, reg[i].userId) == None)
      && (WellFormed(reg) ==> WellFormed(r))
      && (c in reg[i].conns ==> multiset(Conns(r)) + multiset{c} == multiset(Conns(reg)))
      && Users(r) == Seqs.RemoveAt(Users(reg), i)
  {
    var r := Seqs.RemoveAt(reg, i);
    assert Users(r) == Seqs.RemoveAt(Users(reg), i);
    if DistinctUsers(reg) {
      LookupSelfAfterDelete(reg, i);
    }
    forall v | v != reg[i].userId ensures Lookup(r, v) == Lookup(reg, v) {
      LookupOtherAfterDelete(reg, i, v);
    }
    WellFormedAfterDelete(reg, i);
    if c in reg[i].conns {
      assert reg[i].conns == [c];
      SplitAt(reg, i);
      ConnsConcat(reg[..i], reg[i + 1..]);
      assert r == reg[..i] + reg[i + 1..];
    }
  }

  /** Deleting an entry keeps the registry well formed. */
  lemma WellFormedAfterDelete(reg: Registry, i: nat)
    requires i < |reg|
    ensures WellFormed(reg) ==> WellFormed(Seqs.RemoveAt(reg, i))
  {
    var r := Seqs.RemoveAt(reg, i);
    if WellFormed(reg) {
      forall j, k | 0 <= j < k < |r| ensures r[j].userId != r[k].userId {
        var j', k' := if j < i then j else j + 1, if k < i then k else k + 1;
        assert r[j] == reg[j'] && r[k] == reg[k'];
      }
    }
  }

  /** Replacing an entry by a non-empty one with the same user keeps the registry well formed. */
  lemma WellFormedAfterUpdate(reg: Registry, i: nat, e: Entry)
    requires i < |reg| && e.userId == reg[i].userId && |e.conns| > 0
    ensures WellFormed(reg) ==> WellFormed(reg[i := e])
  {
  }

  /** Closing a connection that is not in its user's list changes nothing. */
  lemma CloseAbsentIsNoOp(reg: Registry, u: string, c: ConnId)
    requires WellFormed(reg)
    requires Lookup(reg, u).None? || c !in Lookup(reg, u).value
    ensures Close(reg, u, c) == reg
  {
  }

  /** Closing a connection right after registering it restores the registry
      exactly, Map order included, provided it was not already registered. */
  lemma CloseUndoesRegister(reg: Registry, u: string, c: ConnId)
    requires WellFormed(reg)
    requires c !in Lookup(reg, u).GetOr([])
    ensures Close(Register(reg, u, c), u, c) == reg
  {
    var i := Seqs.IndexOf(Users(reg), u);
    if i < 0 {
      assert Register(reg, u, c) == reg + [Entry(u, [c])];
      CloseNewEntry(reg, u, c);
    } else {
      assert |reg[i].conns| > 0;
      assert Register(reg, u, c) == reg[i := Entry(u, reg[i].conns + [c])];
      CloseLastAppended(reg, i, c);
    }
  }

  /** Closing the only connection of an entry just appended removes the entry. */
  lemma CloseNewEntry(reg: Registry, u: string, c: ConnId)
    requires u !in Users(reg)
    ensures Close(reg + [Entry(u, [c])], u, c) == reg
  {
    var r := reg + [Entry(u, [c])];
    assert Users(r) == Users(reg) + [u];
    assert Users(r)[..|reg|] == Users(reg);
    Seqs.IndexOfIs(Users(r), u, |reg|);
    assert |Seqs.RemoveFirst([c], c)| == 0;
    assert Seqs.RemoveAt(r, |reg|) == reg;
  }

  /** Closing the connection just appended to a non-empty list restores the list. */
  lemma CloseLastAppended(reg: Registry, i: nat, c: ConnId)
    requires i < |reg| && Seqs.IndexOf(Users(reg), reg[i].userId) == i
    requires |reg[i].conns| > 0 && c !in reg[i].conns
    ensures Close(reg[i := Entry(reg[i].userId, reg[i].conns + [c])], reg[i].userId, c) == reg
  {
    var u, cs := reg[i].userId, reg[i].conns;
    var r := reg[i := Entry(u, cs + [c])];
    assert Users(r) == Users(reg);
    assert (cs + [c])[..|cs|] == cs;
    Seqs.IndexOfIs(cs + [c], c, |cs|);
    assert Seqs.RemoveFirst(cs + [c], c) == cs;
    assert r[i := Entry(u, cs)] == reg;
  }
}
