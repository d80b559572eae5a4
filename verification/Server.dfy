/** The server's table of connections: what one round of ServerThreadFunc does to it. */
module ServerTable {
  import opened Bytes

  // The table as a value

  /** Connection ids in list order, the next id, and the limit (negative for none). */
  datatype Table = Table(ids: seq<nat>, nextId: nat, limit: int)

  /** What poll reported: for every connection whether it stopped; whether a client waits, and accepting it succeeds. */
  datatype Round = Round(stopped: seq<bool>, waiting: bool, accepted: bool)

  /** The entries whose slot did not fire, in order. */
  function Keep<T>(xs: seq<T>, fired: seq<bool>): seq<T>
    requires |xs| == |fired|
  {
    if xs == [] then [] else (if fired[0] then [] else [xs[0]]) + Keep(xs[1..], fired[1..])
  }

  predicate AcceptsNew(t: Table) {
    t.limit < 0 || |t.ids| < t.limit
  }

  /** The listening socket is polled only while there is room. */
  predicate Possible(t: Table, r: Round) {
    |r.stopped| == |t.ids| && (r.waiting ==> AcceptsNew(t))
  }

  function RoundStep(t: Table, r: Round): Table
    requires Possible(t, r)
  {
    var kept := Keep(t.ids, r.stopped);
    if r.waiting && r.accepted then Table(kept + [t.nextId], (t.nextId + 1) % TWO_32, t.limit)
    else t.(ids := kept)
  }

  /** Without a waiting client or a stopped connection the thread leaves its loop. */
  predicate GoesOn(r: Round) {
    r.waiting || true in r.stopped
  }

  predicate Ascending(ids: seq<nat>) {
    forall i, j | 0 <= i < j < |ids| :: ids[i] < ids[j]
  }

  predicate TableInv(t: Table) {
    && Ascending(t.ids) && t.nextId < TWO_32 && (forall i | 0 <= i < |t.ids| :: t.ids[i] < t.nextId)
    && (t.limit >= 0 ==> |t.ids| <= t.limit)
  }

  /** Exactly the entries whose slot did not fire remain. */
  lemma {:induction false} KeepMembers<T>(xs: seq<T>, fired: seq<bool>, x: T)
    requires |xs| == |fired|
    ensures x in Keep(xs, fired) <==> exists i :: 0 <= i < |xs| && xs[i] == x && !fired[i]
    ensures |Keep(xs, fired)| <= |xs| && (x in Keep(xs, fired) ==> x in xs)
  {
    if xs != [] {
      KeepMembers(xs[1..], fired[1..], x);
      if x in Keep(xs[1..], fired[1..]) {
        var i :| 0 <= i < |xs| - 1 && xs[1..][i] == x && !fired[1..][i];
        assert xs[i + 1] == x && !fired[i + 1];
      }
      if i :| 0 <= i < |xs| && xs[i] == x && !fired[i] && i > 0 {
        assert xs[1..][i - 1] == x && !fired[1..][i - 1];
      }
    }
  }

  lemma {:induction false} KeepAscending(ids: seq<nat>, fired: seq<bool>)
    requires |ids| == |fired| && Ascending(ids)
    ensures Ascending(Keep(ids, fired))
  {
    if ids != [] {
      KeepAscending(ids[1..], fired[1..]);
      forall k | 0 <= k < |Keep(ids[1..], fired[1..])| ensures ids[0] < Keep(ids[1..], fired[1..])[k] {
        KeepMembers<nat>(ids[1..], fired[1..], Keep(ids[1..], fired[1..])[k]);
      }
    }
  }

  /** One round keeps the table's invariant exactly when it does not take the last id of the uint32 counter. */
  lemma RoundKeepsInv(t: Table, r: Round)
    requires TableInv(t) && Possible(t, r)
    ensures TableInv(RoundStep(t, r)) <==> !(r.waiting && r.accepted && t.nextId == TWO_32 - 1)
    ensures RoundStep(t, r).limit == t.limit
  {
    var kept := Keep(t.ids, r.stopped);
    KeepAscending(t.ids, r.stopped);
    forall k | 0 <= k < |kept| ensures kept[k] < t.nextId {
      KeepMembers<nat>(t.ids, r.stopped, kept[k]);
      assert kept[k] in kept;
      var i :| 0 <= i < |t.ids| && t.ids[i] == kept[k];
    }
    KeepMembers<nat>(t.ids, r.stopped, 0);
    if r.waiting && r.accepted {
      var ids := RoundStep(t, r).ids;
      assert ids[|kept|] == t.nextId;
    }
  }

  /**
   What a round leaves: of the old connections exactly those whose slot did not fire, in their order, and behind them
   the next id exactly if a waiting client was accepted.
   */
  lemma RoundLeaves(t: Table, r: Round)
    requires TableInv(t) && Possible(t, r)
    ensures var u, took := RoundStep(t, r), r.waiting && r.accepted;
            && (forall i | 0 <= i < |t.ids| :: t.ids[i] in u.ids <==> !r.stopped[i])
            && (forall id | id in u.ids :: id in t.ids || id == t.nextId)
            && (t.nextId in u.ids <==> took) && Ascending(u.ids)
            && (took ==> u.ids != [] && u.ids[|u.ids| - 1] == t.nextId)
            && u.nextId == (if took then (t.nextId + 1) % 0x1_0000_0000 else t.nextId) && u.limit == t.limit
  {
    var u, kept := RoundStep(t, r), Keep(t.ids, r.stopped);
    KeepAscending(t.ids, r.stopped);
    forall id | id in kept ensures id in t.ids && id < t.nextId {
      KeepMembers<nat>(t.ids, r.stopped, id);
    }
    forall i | 0 <= i < |t.ids| ensures t.ids[i] in u.ids <==> !r.stopped[i] {
      KeepMembers<nat>(t.ids, r.stopped, t.ids[i]);
    }
    if r.waiting && r.accepted {
      assert u.ids[|kept|] == t.nextId;
      forall k | 0 <= k < |kept| ensures u.ids[k] < t.nextId {
        assert kept[k] in kept;
      }
    }
  }

  /** The listening socket is polled unless a limit is set and reached; a negative limit is none. */
  lemma WhenAccepting(t: Table)
    ensures t.limit < 0 ==> AcceptsNew(t)
    ensures t.limit >= 0 ==> (AcceptsNew(t) <==> |t.ids| < t.limit)
  {
  }

  predicate CanServe(t: Table, rs: seq<Round>)
    decreases |rs|
  {
    rs == [] || (Possible(t, rs[0]) && CanServe(RoundStep(t, rs[0]), rs[1..]))
  }

  function Served(t: Table, rs: seq<Round>): Table
    requires CanServe(t, rs)
    decreases |rs|
  {
    if rs == [] then t else Served(RoundStep(t, rs[0]), rs[1..])
  }

  function Accepts(rs: seq<Round>): nat {
    if rs == [] then 0 else (if rs[0].waiting && rs[0].accepted then 1 else 0) + Accepts(rs[1..])
  }

  /**
   Over every run that leaves the counter room, ids ascend, stay below the counter, and the limit is never exceeded.
   */
  lemma {:induction false} TableInvariant(t: Table, rs: seq<Round>)
    requires TableInv(t) && CanServe(t, rs) && t.nextId + Accepts(rs) < TWO_32
    ensures TableInv(Served(t, rs)) && Served(t, rs).limit == t.limit
    ensures Served(t, rs).nextId == t.nextId + Accepts(rs)
    decreases |rs|
  {
    if rs != [] {
      RoundKeepsInv(t, rs[0]);
      TableInvariant(RoundStep(t, rs[0]), rs[1..]);
    }
  }

  // The server's list

  class Conn {
    var id: nat
    var tag: seq<byte>

    constructor (id: nat)
      ensures this.id == id && tag == []
    {
      this.id, this.tag := id, [];
    }
  }

  ghost function Ids(cs: seq<Conn>): (ids: seq<nat>)
    reads cs
    ensures |ids| == |cs| && forall i | 0 <= i < |cs| :: ids[i] == cs[i].id
  {
    seq(|cs|, i requires 0 <= i < |cs| reads cs => cs[i].id)
  }

  /** list.remove for all the connections of a set. */
  function FilterOut(cs: seq<Conn>, gone: set<Conn>): (r: seq<Conn>)
    ensures forall c | c in r :: c in cs && c !in gone
  {
    if cs == [] then [] else (if cs[0] in gone then [] else [cs[0]]) + FilterOut(cs[1..], gone)
  }

  lemma {:induction false} FilterTwice(cs: seq<Conn>, a: set<Conn>, b: set<Conn>)
    ensures FilterOut(FilterOut(cs, a), b) == FilterOut(cs, a + b)
  {
    if cs != [] {
      FilterTwice(cs[1..], a, b);
      var rest := FilterOut(cs[1..], a);
      if cs[0] in a {
        assert FilterOut(cs, a) == rest;
      } else {
        assert FilterOut(cs, a) == [cs[0]] + rest && ([cs[0]] + rest)[1..] == rest;
      }
    }
  }

  lemma {:induction false} FilterNothing(cs: seq<Conn>)
    ensures FilterOut(cs, {}) == cs
  {
    if cs != [] {
      FilterNothing(cs[1..]);
    }
  }

  function SetOf(cs: seq<Conn>): set<Conn> {
    set c | c in cs
  }

  lemma SetOfAppend(cs: seq<Conn>, c: Conn)
    ensures SetOf(cs + [c]) == SetOf(cs) + {c} && SetOf([]) == {}
  {
  }

  predicate NoRepeats(cs: seq<Conn>) {
    forall i, j | 0 <= i < j < |cs| :: cs[i] != cs[j]
  }

  /** Removing the fired connections by pointer is keeping the slots that did not fire. */
  lemma {:induction false} RemoveIsKeep(cs: seq<Conn>, fired: seq<bool>, gone: set<Conn>)
    requires |cs| == |fired| && NoRepeats(cs)
    requires forall i | 0 <= i < |cs| :: cs[i] in gone <==> fired[i]
    ensures FilterOut(cs, gone) == Keep(cs, fired)
  {
    if cs != [] {
      RemoveIsKeep(cs[1..], fired[1..], gone);
    }
  }

  lemma {:induction false} KeepIds(cs: seq<Conn>, fired: seq<bool>)
    requires |cs| == |fired|
    ensures Ids(Keep(cs, fired)) == Keep(Ids(cs), fired)
  {
    if cs != [] {
      KeepIds(cs[1..], fired[1..]);
      assert Ids(cs)[1..] == Ids(cs[1..]);
    }
  }

  lemma InSetOf(cs: seq<Conn>)
    ensures forall c :: c in SetOf(cs) <==> c in cs
  {
  }

  /** Of connections that are all different, exactly those whose slot did not fire are kept. */
  lemma KeptAre(cs: seq<Conn>, fired: seq<bool>)
    requires |cs| == |fired| && NoRepeats(cs)
    ensures forall i | 0 <= i < |cs| :: cs[i] in Keep(cs, fired) <==> !fired[i]
    ensures forall c | c in Keep(cs, fired) :: c in cs
  {
    forall c | c in cs + Keep(cs, fired)
      ensures c in cs
      ensures c in Keep(cs, fired) <==> exists i :: 0 <= i < |cs| && cs[i] == c && !fired[i]
    {
      KeepMembers<Conn>(cs, fired, c);
    }
  }

  class Server {
    var connections: seq<Conn>
    var maxConnections: int
    var freeConnId: nat

    ghost function View(): Table
      reads this, connections
    {
      Table(Ids(connections), freeConnId, maxConnections)
    }

    ghost predicate Valid()
      reads this, connections
    {
      TableInv(View())
    }

    constructor (maxConnections: int)
      ensures Valid() && View() == Table([], 1, maxConnections)
    {
      connections, this.maxConnections, freeConnId := [], maxConnections, 1;
    }

    /** Whether the listening socket is polled in this round. */
    method AcceptNew() returns (accept: bool)
      ensures accept == AcceptsNew(View())
      ensures accept <==> maxConnections < 0 || |connections| < maxConnections
    {
      accept := true;
      if maxConnections >= 0 {
        accept := |connections| < maxConnections;
      }
    }

    /**
     The rest of the round, once poll has filled revents: slot 0 is the listening socket, slot 1 the stop event, slot
     2 + i connection i. `accepted` says whether accepting a waiting client succeeds. False: the thread leaves its loop.
     */
    method HandleEvents(revents: array<bool>, accepted: bool) returns (goOn: bool)
      requires Valid() && revents.Length == 2 + |connections|
      requires revents[0] ==> AcceptsNew(View())
      modifies this
      ensures Valid() <==> !(old(revents[0]) && !old(revents[1]) && accepted && old(freeConnId) == TWO_32 - 1)
      ensures var r := Round(old(revents[2..]), old(revents[0]), accepted);
              if old(revents[1]) then !goOn && View() == old(View())
              else View() == RoundStep(old(View()), r) && goOn == GoesOn(r)
      ensures goOn <==> !old(revents[1]) && (old(revents[0]) || true in old(revents[2..]))
      ensures old(revents[1]) ==> connections == old(connections)
      ensures !old(revents[1]) ==>
                forall i | 0 <= i < |old(connections)| :: old(connections)[i] in connections <==> !old(revents[2 + i])
      ensures !old(revents[1]) && old(revents[0]) && accepted ==>
                && connections != [] && fresh(connections[|connections| - 1])
                && connections[|connections| - 1].id == old(freeConnId)
                && forall c | c in connections[..|connections| - 1] :: c in old(connections)
      ensures !(old(revents[0]) && accepted) ==> forall c | c in connections :: c in old(connections)
    {
      hide TableInv, Keep, AcceptsNew, RoundStep, GoesOn;
      if revents[1] {
        return false;
      }
      goOn := RemoveAndAccept(revents, accepted);
    }

    /** The round when there is no stop event. */
    method RemoveAndAccept(revents: array<bool>, accepted: bool) returns (goOn: bool)
      requires Valid() && revents.Length == 2 + |connections|
      requires revents[0] ==> AcceptsNew(View())
      modifies this
      ensures Valid() <==> !(revents[0] && accepted && old(freeConnId) == TWO_32 - 1)
      ensures View() == RoundStep(old(View()), Round(revents[2..], revents[0], accepted))
      ensures goOn == GoesOn(Round(revents[2..], revents[0], accepted))
      ensures goOn == (revents[0] || true in revents[2..])
      ensures forall i | 0 <= i < |old(connections)| :: old(connections)[i] in connections <==> !revents[2 + i]
      ensures revents[0] && accepted ==>
                && connections != [] && fresh(connections[|connections| - 1])
                && connections[|connections| - 1].id == old(freeConnId)
                && forall c | c in connections[..|connections| - 1] :: c in old(connections)
      ensures !(revents[0] && accepted) ==> forall c | c in connections :: c in old(connections)
    {
      hide TableInv, Keep, AcceptsNew;
      RoundKeepsInv(View(), Round(revents[2..], revents[0], accepted));
      var anyClosed := RemoveClosed(revents);
      goOn := revents[0] || anyClosed;
      if revents[0] && accepted {
        AcceptOne();
      }
    }

    /** A new connection takes the next id and goes to the end of the list. */
    method AcceptOne()
      modifies this`freeConnId, this`connections
      ensures View() == old(View()).(ids := old(View().ids) + [old(freeConnId)],
                                     nextId := (old(freeConnId) + 1) % TWO_32)
      ensures |connections| == |old(connections)| + 1 && connections[..|old(connections)|] == old(connections)
      ensures fresh(connections[|old(connections)|]) && connections[|old(connections)|].id == old(freeConnId)
    {
      var conn := new Conn(freeConnId);
      ghost var before := Ids(connections);
      freeConnId := (freeConnId + 1) % TWO_32;
      connections := connections + [conn];
      assert Ids(connections) == before + [old(freeConnId)];
    }

    /** Collect the connections whose slot fired, then remove each one from the list. */
    method RemoveClosed(revents: array<bool>) returns (any: bool)
      requires Valid() && revents.Length == 2 + |connections|
      modifies this`connections
      ensures connections == Keep(old(connections), revents[2..])
      ensures Ids(connections) == Keep(old(Ids(connections)), revents[2..])
      ensures any == (true in revents[2..])
      ensures forall i | 0 <= i < |old(connections)| :: old(connections)[i] in connections <==> !revents[2 + i]
      ensures forall c | c in connections :: c in old(connections)
    {
      hide Keep, FilterOut, SetOf;
      var deleted := CollectClosed(revents);
      DistinctIds(View().ids, connections);
      ghost var cs, fired := connections, revents[2..];
      RemoveAll(deleted);
      InSetOf(deleted);
      RemoveIsKeep(cs, fired, SetOf(deleted));
      KeepIds(cs, fired);
      KeptAre(cs, fired);
      any := |deleted| > 0;
    }

    method RemoveAll(deleted: seq<Conn>)
      modifies this`connections
      ensures connections == FilterOut(old(connections), SetOf(deleted))
    {
      ghost var cs := connections;
      FilterNothing(cs);
      assert SetOf(deleted[..0]) == {};
      for k := 0 to |deleted|
        invariant connections == FilterOut(cs, SetOf(deleted[..k]))
      {
        FilterTwice(cs, SetOf(deleted[..k]), {deleted[k]});
        SetOfAppend(deleted[..k], deleted[k]);
        assert deleted[..k + 1] == deleted[..k] + [deleted[k]];
        connections := FilterOut(connections, {deleted[k]});
      }
      assert deleted[..|deleted|] == deleted;
    }

    /** The index i walks the list and the poll slots together. */
    method CollectClosed(revents: array<bool>) returns (deleted: seq<Conn>)
      requires Valid() && revents.Length == 2 + |connections|
      ensures forall i | 0 <= i < |connections| :: connections[i] in deleted <==> revents[2 + i]
      ensures deleted != [] <==> true in revents[2..]
    {
      DistinctIds(View().ids, connections);
      deleted := [];
      var i := 0;
      while i < |connections|
        invariant i <= |connections|
        invariant forall c | c in deleted :: exists j :: 0 <= j < i && connections[j] == c && revents[2 + j]
        invariant forall j | 0 <= j < i && revents[2 + j] :: connections[j] in deleted
      {
        if revents[2 + i] {
          deleted := deleted + [connections[i]];
        }
        i := i + 1;
      }
      assert forall j | 0 <= j < |connections| :: revents[2..][j] == revents[2 + j];
      if deleted != [] {
        assert deleted[0] in deleted;
      }
      if true in revents[2..] {
        var j :| 0 <= j < |connections| && revents[2..][j];
        assert connections[j] in deleted;
      }
    }

    /** GetConnection by id: the connection with that id, if there is one; there is at most one. */
    method GetConnection(id: nat) returns (conn: Conn?)
      requires Valid()
      ensures conn == null <==> forall c | c in connections :: c.id != id
      ensures conn != null ==> conn in connections && conn.id == id
      ensures conn != null ==> forall c | c in connections && c.id == id :: c == conn
    {
      var i := 0;
      while i < |connections| && connections[i].id != id
        invariant i <= |connections| && forall j | 0 <= j < i :: connections[j].id != id
      {
        i := i + 1;
      }
      if i == |connections| { return null; }
      conn := connections[i];
      assert forall j | 0 <= j < |connections| :: View().ids[j] == connections[j].id;
    }

    /** GetConnection by tag: the first connection with that tag. */
    method GetTagged(tag: seq<byte>) returns (conn: Conn?)
      ensures conn == null <==> forall c | c in connections :: c.tag != tag
      ensures conn != null ==> exists i :: 0 <= i < |connections| && connections[i] == conn && conn.tag == tag
                                           && forall j | 0 <= j < i :: connections[j].tag != tag
    {
      var i := 0;
      while i < |connections| && connections[i].tag != tag
        invariant i <= |connections| && forall j | 0 <= j < i :: connections[j].tag != tag
      {
        i := i + 1;
      }
      if i == |connections| { return null; }
      conn := connections[i];
    }
  }

  lemma DistinctIds(ids: seq<nat>, cs: seq<Conn>)
    requires ids == Ids(cs) && Ascending(ids)
    ensures NoRepeats(cs)
  {
    assert forall i, j | 0 <= i < j < |cs| :: ids[i] < ids[j];
  }
}
