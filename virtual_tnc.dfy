/**
 * The virtual TNC relay: one pass of the coordinator loop of
 * DotPacket.Kiss.VirtualTnc/Program.cs. Every client of the relay behaves as a radio on
 * one shared packet frequency: each data frame a client sends is heard by every other
 * connected client, oldest first.
 */
module VirtualTnc {
  import opened Wrappers
  import opened Bytes
  import opened KissFrames
  import KissEncoding
  import opened VirtualTncConnections

  /** A collected frame and the id of the connection it arrived on. */
  datatype Tagged = Tagged(origin: nat, frame: KissFrame)

  function Ids(cs: seq<Connection>): set<nat>
  {
    set c | c in cs :: c.id
  }

  /** Distinct connection objects: no id occurs twice in the registry. */
  predicate UniqueIds(cs: seq<Connection>)
  {
    forall i, j :: 0 <= i < j < |cs| ==> cs[i].id != cs[j].id
  }

  lemma UniqueIdsCons(c: Connection, cs: seq<Connection>)
    requires UniqueIds(cs) && c.id !in Ids(cs)
    ensures UniqueIds([c] + cs)
  {
    forall i, j | 0 <= i < j < |[c] + cs|
      ensures ([c] + cs)[i].id != ([c] + cs)[j].id
    {
      if i == 0 {
        assert cs[j - 1] in cs;
      }
    }
  }

  // ---------------------------------------------------------------------------
  // Clearing lost connections

  /** The connections still connected, in registry order. */
  function Live(cs: seq<Connection>): (r: seq<Connection>)
    ensures |r| <= |cs|
    ensures forall c :: c in r <==> c in cs && c.connected
  {
    if cs == [] then [] else (if cs[0].connected then [cs[0]] else []) + Live(cs[1..])
  }

  /** `deadConnections`: the connections no longer connected, in registry order. */
  function Dead(cs: seq<Connection>): (r: seq<Connection>)
    ensures forall c :: c in r <==> c in cs && !c.connected
  {
    if cs == [] then [] else (if cs[0].connected then [] else [cs[0]]) + Dead(cs[1..])
  }

  /** `List.Remove`: the registry without the first connection with the given id. */
  function RemoveFirst(cs: seq<Connection>, id: nat): (r: seq<Connection>)
  {
    if cs == [] then []
    else if cs[0].id == id then cs[1..]
    else [cs[0]] + RemoveFirst(cs[1..], id)
  }

  /** The registry without any connection whose id is in `ids`. */
  function WithoutIds(cs: seq<Connection>, ids: set<nat>): (r: seq<Connection>)
    ensures forall c :: c in r <==> c in cs && c.id !in ids
  {
    if cs == [] then []
    else (if cs[0].id in ids then [] else [cs[0]]) + WithoutIds(cs[1..], ids)
  }

  lemma {:induction false} WithoutIdsUnique(cs: seq<Connection>, ids: set<nat>)
    requires UniqueIds(cs)
    ensures UniqueIds(WithoutIds(cs, ids))
    decreases |cs|
  {
    if cs != [] {
      var rest := cs[1..];
      assert UniqueIds(rest);
      WithoutIdsUnique(rest, ids);
      assert cs[0].id !in Ids(WithoutIds(rest, ids)) by {
        forall c | c in WithoutIds(rest, ids)
          ensures c.id != cs[0].id
        {
          var j :| 0 <= j < |rest| && rest[j] == c;
          assert cs[j + 1] == c;
        }
      }
      if cs[0].id !in ids {
        UniqueIdsCons(cs[0], WithoutIds(rest, ids));
      }
    }
  }

  /** With distinct ids, removing the first connection with an id removes every one. */
  lemma {:induction false} RemoveFirstUnique(cs: seq<Connection>, id: nat)
    requires UniqueIds(cs)
    ensures RemoveFirst(cs, id) == WithoutIds(cs, {id})
    decreases |cs|
  {
    if cs != [] {
      assert UniqueIds(cs[1..]);
      if cs[0].id == id {
        NoIdLeft(cs[1..], {id});
      } else {
        RemoveFirstUnique(cs[1..], id);
      }
    }
  }

  lemma {:induction false} NoIdLeft(cs: seq<Connection>, ids: set<nat>)
    requires forall i :: 0 <= i < |cs| ==> cs[i].id !in ids
    ensures WithoutIds(cs, ids) == cs
    decreases |cs|
  {
    if cs != [] {
      NoIdLeft(cs[1..], ids);
    }
  }

  lemma {:induction false} WithoutIdsTwice(cs: seq<Connection>, a: set<nat>, b: set<nat>)
    ensures WithoutIds(WithoutIds(cs, a), b) == WithoutIds(cs, a + b)
    decreases |cs|
  {
    if cs != [] {
      WithoutIdsTwice(cs[1..], a, b);
      var w := WithoutIds(cs, a);
      if cs[0].id !in a {
        assert w == [cs[0]] + WithoutIds(cs[1..], a);
        assert w[1..] == WithoutIds(cs[1..], a);
      } else {
        assert w == WithoutIds(cs[1..], a);
      }
    }
  }

  lemma IdsSnoc(cs: seq<Connection>, c: Connection)
    ensures Ids(cs + [c]) == Ids(cs) + {c.id}
  {
    assert forall d :: d in cs + [c] <==> d in cs || d == c;
  }

  /** With distinct ids, a connection's id is a dead id exactly when it is not connected. */
  lemma DeadIds(cs: seq<Connection>)
    requires UniqueIds(cs)
    ensures forall i :: 0 <= i < |cs| ==> (cs[i].id in Ids(Dead(cs)) <==> !cs[i].connected)
  {
    forall i | 0 <= i < |cs|
      ensures cs[i].id in Ids(Dead(cs)) <==> !cs[i].connected
    {
      if cs[i].id in Ids(Dead(cs)) {
        var d :| d in Dead(cs) && d.id == cs[i].id;
        var j :| 0 <= j < |cs| && cs[j] == d;
        assert i == j;
      } else {
        assert cs[i] in cs;
      }
    }
  }

  /** Removing the ids of the dead connections leaves exactly the live ones. */
  lemma {:induction false} DeadIdsGiveLive(cs: seq<Connection>, ids: set<nat>)
    requires UniqueIds(cs)
    requires forall i :: 0 <= i < |cs| ==> (cs[i].id in ids <==> !cs[i].connected)
    ensures WithoutIds(cs, ids) == Live(cs)
    decreases |cs|
  {
    if cs != [] {
      assert UniqueIds(cs[1..]);
      DeadIdsGiveLive(cs[1..], ids);
    }
  }

  // ---------------------------------------------------------------------------
  // Collecting frames

  /** The frames of one connection, each tagged with the connection's id. */
  function Tag(id: nat, frames: seq<KissFrame>): (r: seq<Tagged>)
    ensures |r| == |frames|
    ensures forall i :: 0 <= i < |r| ==> r[i] == Tagged(id, frames[i])
  {
    seq(|frames|, i requires 0 <= i < |frames| => Tagged(id, frames[i]))
  }

  /** The frames collected from the connected connections: registry order, then queue order. */
  function Collected(cs: seq<Connection>): (r: seq<Tagged>)
    ensures forall t :: t in r ==> exists c :: c in cs && c.connected && c.id == t.origin && t.frame in c.inbox
  {
    if cs == [] then []
    else
      var c := cs[|cs| - 1];
      Collected(cs[..|cs| - 1]) + (if c.connected then Tag(c.id, c.inbox) else [])
  }

  /** Collecting distributes over the registry: earlier connections' frames come first. */
  lemma {:induction false} CollectedAppend(a: seq<Connection>, b: seq<Connection>)
    ensures Collected(a + b) == Collected(a) + Collected(b)
    decreases |b|
  {
    if b == [] {
      assert a + b == a;
    } else {
      var init := b[..|b| - 1];
      assert (a + b)[..|a + b| - 1] == a + init;
      assert (a + b)[|a + b| - 1] == b[|b| - 1];
      CollectedAppend(a, init);
    }
  }

  /** One connection contributes its whole inbox, in queue order, when it is connected. */
  lemma CollectedOne(c: Connection)
    ensures Collected([c]) == if c.connected then Tag(c.id, c.inbox) else []
  {
    assert [c][..0] == [];
  }

  /** Every frame waiting in a connected connection's inbox is collected. */
  lemma CollectedComplete(cs: seq<Connection>)
    ensures forall c, f :: c in cs && c.connected && f in c.inbox ==> Tagged(c.id, f) in Collected(cs)
  {
    forall c, f | c in cs && c.connected && f in c.inbox
      ensures Tagged(c.id, f) in Collected(cs)
    {
      var i :| 0 <= i < |cs| && cs[i] == c;
      var k :| 0 <= k < |c.inbox| && c.inbox[k] == f;
      assert cs == cs[..i] + [c] + cs[i + 1..];
      CollectedAppend(cs[..i] + [c], cs[i + 1..]);
      CollectedAppend(cs[..i], [c]);
      CollectedOne(c);
      assert Tag(c.id, c.inbox)[k] == Tagged(c.id, f);
    }
  }

  /** A connection after `TakeOutstandingFrames`, if it was drained. */
  function Drain(c: Connection): Connection
  {
    if c.connected then c.(inbox := []) else c
  }

  function Drained(cs: seq<Connection>): (r: seq<Connection>)
    ensures |r| == |cs|
  {
    seq(|cs|, j requires 0 <= j < |cs| => Drain(cs[j]))
  }

  // ---------------------------------------------------------------------------
  // Filtering and ordering

  /** The data frames (command 0), in order. */
  function DataFrames(ts: seq<Tagged>): (r: seq<Tagged>)
    ensures |r| <= |ts|
    ensures forall t :: t in r <==> t in ts && t.frame.command == 0
    ensures multiset(r) <= multiset(ts)
  {
    if ts == [] then []
    else
      assert ts == [ts[0]] + ts[1..];
      (if ts[0].frame.command == 0 then [ts[0]] else []) + DataFrames(ts[1..])
  }

  predicate SortedByCreated(ts: seq<Tagged>)
  {
    forall i, j :: 0 <= i < j < |ts| ==> ts[i].frame.created <= ts[j].frame.created
  }

  /** `x` placed before the first element created no earlier than it. */
  function Insert(x: Tagged, ts: seq<Tagged>): (r: seq<Tagged>)
    ensures multiset(r) == multiset(ts) + multiset{x}
  {
    if ts == [] || x.frame.created <= ts[0].frame.created then [x] + ts
    else
      assert ts == [ts[0]] + ts[1..];
      [ts[0]] + Insert(x, ts[1..])
  }

  /** `OrderBy(f => f.Frame.Created)`: a stable sort by creation time. */
  function SortByCreated(ts: seq<Tagged>): (r: seq<Tagged>)
    ensures multiset(r) == multiset(ts)
  {
    if ts == [] then []
    else
      assert ts == [ts[0]] + ts[1..];
      Insert(ts[0], SortByCreated(ts[1..]))
  }

  lemma {:induction false} InsertSorted(x: Tagged, ts: seq<Tagged>)
    requires SortedByCreated(ts)
    ensures SortedByCreated(Insert(x, ts))
    decreases |ts|
  {
    if ts != [] && x.frame.created > ts[0].frame.created {
      InsertSorted(x, ts[1..]);
      var rest := Insert(x, ts[1..]);
      assert multiset(rest) == multiset(ts[1..]) + multiset{x};
      forall t | t in rest
        ensures ts[0].frame.created <= t.frame.created
      {
        assert t in multiset(rest);
        if t != x {
          assert t in multiset(ts[1..]);
          var j :| 0 <= j < |ts[1..]| && ts[1..][j] == t;
          assert ts[j + 1] == t;
        }
      }
      forall i, j | 0 <= i < j < |[ts[0]] + rest|
        ensures ([ts[0]] + rest)[i].frame.created <= ([ts[0]] + rest)[j].frame.created
      {
        if i == 0 {
          assert rest[j - 1] in rest;
        }
      }
    }
  }

  /** The relay order is ascending creation time. */
  lemma {:induction false} SortSorted(ts: seq<Tagged>)
    ensures SortedByCreated(SortByCreated(ts))
    decreases |ts|
  {
    if ts != [] {
      SortSorted(ts[1..]);
      InsertSorted(ts[0], SortByCreated(ts[1..]));
    }
  }

  /** The frames created at `time`, in order. */
  function AtTime(ts: seq<Tagged>, time: Timestamp): (r: seq<Tagged>)
    ensures forall t :: t in r ==> t in ts && t.frame.created == time
  {
    if ts == [] then []
    else (if ts[0].frame.created == time then [ts[0]] else []) + AtTime(ts[1..], time)
  }

  lemma {:induction false} InsertAtTime(x: Tagged, ts: seq<Tagged>, time: Timestamp)
    ensures AtTime(Insert(x, ts), time)
         == if x.frame.created == time then [x] + AtTime(ts, time) else AtTime(ts, time)
    decreases |ts|
  {
    if ts != [] && x.frame.created > ts[0].frame.created {
      InsertAtTime(x, ts[1..], time);
      var r := Insert(x, ts);
      assert r[1..] == Insert(x, ts[1..]);
    }
  }

  /** Stability: frames with equal timestamps keep their collection order. */
  lemma {:induction false} SortStable(ts: seq<Tagged>, time: Timestamp)
    ensures AtTime(SortByCreated(ts), time) == AtTime(ts, time)
    decreases |ts|
  {
    if ts != [] {
      SortStable(ts[1..], time);
      InsertAtTime(ts[0], SortByCreated(ts[1..]), time);
    }
  }

  /** What one cycle relays: the data frames among the collected ones, stably sorted by time. */
  function Relayed(collected: seq<Tagged>): seq<Tagged>
  {
    SortByCreated(DataFrames(collected))
  }

  /**
   * The relayed frames are exactly the collected data frames, oldest first, and frames
   * with the same timestamp go out in collection order.
   */
  lemma RelayedFrames(collected: seq<Tagged>)
    ensures multiset(Relayed(collected)) == multiset(DataFrames(collected))
    ensures forall t :: t in Relayed(collected) <==> t in collected && t.frame.command == 0
    ensures SortedByCreated(Relayed(collected))
    ensures forall time :: AtTime(Relayed(collected), time) == AtTime(DataFrames(collected), time)
  {
    var data := DataFrames(collected);
    SortSorted(data);
    forall t
      ensures t in Relayed(collected) <==> t in data
    {
      assert t in Relayed(collected) <==> t in multiset(Relayed(collected));
      assert t in data <==> t in multiset(data);
    }
    forall time
      ensures AtTime(Relayed(collected), time) == AtTime(data, time)
    {
      SortStable(data, time);
    }
  }

  // ---------------------------------------------------------------------------
  // Broadcasting

  /** The frame queued on `c`, unless `c` sent it or is no longer connected. */
  function DeliverTo(c: Connection, t: Tagged): Connection
  {
    if c.id != t.origin && c.connected then QueueFrame(c, t.frame) else c
  }

  function DeliverFrame(cs: seq<Connection>, t: Tagged): (r: seq<Connection>)
    ensures |r| == |cs|
  {
    seq(|cs|, j requires 0 <= j < |cs| => DeliverTo(cs[j], t))
  }

  /** The registry after the frames `ts` have been handed out in order. */
  function DeliverAll(cs: seq<Connection>, ts: seq<Tagged>): (r: seq<Connection>)
    ensures |r| == |cs|
  {
    if ts == [] then cs else DeliverFrame(DeliverAll(cs, ts[..|ts| - 1]), ts[|ts| - 1])
  }

  /** The frames of `ts` not sent by connection `id`, in order. */
  function ForTarget(ts: seq<Tagged>, id: nat): (r: seq<KissFrame>)
    ensures forall i :: 0 <= i < |ts| && ts[i].origin != id ==> ts[i].frame in r
    ensures forall f :: f in r ==> exists i :: 0 <= i < |ts| && ts[i].origin != id && ts[i].frame == f
  {
    if ts == [] then []
    else
      var t := ts[|ts| - 1];
      ForTarget(ts[..|ts| - 1], id) + (if t.origin != id then [t.frame] else [])
  }

  /** The KISS encodings of frames, in order. */
  function Encoded(fs: seq<KissFrame>): (r: seq<seq<byte>>)
    ensures |r| == |fs|
  {
    seq(|fs|, i requires 0 <= i < |fs| => KissEncoding.EncodeFrame(fs[i]))
  }

  /**
   * Handing out frames in order leaves each connected connection's outgoing queue grown
   * by exactly the encodings of the frames other connections sent, in that order, and
   * leaves disconnected connections untouched.
   */
  lemma {:induction false} DeliverAllOutboxes(cs: seq<Connection>, ts: seq<Tagged>)
    ensures forall j :: 0 <= j < |cs| ==>
      DeliverAll(cs, ts)[j]
        == if cs[j].connected then cs[j].(outbox := cs[j].outbox + Encoded(ForTarget(ts, cs[j].id))) else cs[j]
    decreases |ts|
  {
    if ts != [] {
      var init := ts[..|ts| - 1];
      var t := ts[|ts| - 1];
      DeliverAllOutboxes(cs, init);
      forall j | 0 <= j < |cs| && cs[j].connected
        ensures DeliverAll(cs, ts)[j] == cs[j].(outbox := cs[j].outbox + Encoded(ForTarget(ts, cs[j].id)))
      {
        var before := Encoded(ForTarget(init, cs[j].id));
        if t.origin != cs[j].id {
          assert Encoded(ForTarget(ts, cs[j].id)) == before + [KissEncoding.EncodeFrame(t.frame)];
          assert cs[j].outbox + before + [KissEncoding.EncodeFrame(t.frame)]
              == cs[j].outbox + (before + [KissEncoding.EncodeFrame(t.frame)]);
        } else {
          assert ForTarget(ts, cs[j].id) == ForTarget(init, cs[j].id);
        }
      }
    }
  }

  // ---------------------------------------------------------------------------
  // One relay cycle

  /** The registry after one cycle of the coordinator loop, from the registry before it. */
  function CycleResult(cs: seq<Connection>): seq<Connection>
  {
    var live := Live(cs);
    var collected := Collected(live);
    if collected == [] then Drained(live) else DeliverAll(Drained(live), Relayed(collected))
  }

  /**
   * After one cycle the registry holds the live connections in their order, each with
   * its incoming queue drained and its outgoing queue grown by exactly the relayed
   * frames that other connections sent, in relay order.
   */
  lemma CycleOutboxes(cs: seq<Connection>)
    ensures |CycleResult(cs)| == |Live(cs)|
    ensures forall j :: 0 <= j < |Live(cs)| ==>
      var c := Live(cs)[j];
      CycleResult(cs)[j]
        == c.(inbox := [], outbox := c.outbox + Encoded(ForTarget(Relayed(Collected(Live(cs))), c.id)))
  {
    var live := Live(cs);
    var collected := Collected(live);
    forall j | 0 <= j < |live|
      ensures live[j].connected
    {
      assert live[j] in live;
    }
    if collected == [] {
      assert Relayed(collected) == [];
      assert forall id :: Encoded(ForTarget([], id)) == [];
    } else {
      DeliverAllOutboxes(Drained(live), Relayed(collected));
    }
  }

  /** Two registries whose ids agree position by position have distinct ids together. */
  lemma SameIdsDistinct(a: seq<Connection>, b: seq<Connection>)
    requires UniqueIds(a) && |a| == |b|
    requires forall j :: 0 <= j < |a| ==> a[j].id == b[j].id
    ensures UniqueIds(b)
  {
  }

  /** Delivering frames changes no connection's id. */
  lemma {:induction false} DeliverAllKeepsIds(cs: seq<Connection>, ts: seq<Tagged>)
    ensures forall j :: 0 <= j < |cs| ==> DeliverAll(cs, ts)[j].id == cs[j].id
    decreases |ts|
  {
    if ts != [] {
      DeliverAllKeepsIds(cs, ts[..|ts| - 1]);
    }
  }

  /** A cycle keeps the ids in the registry distinct. */
  lemma CycleKeepsIdsDistinct(cs: seq<Connection>)
    requires UniqueIds(cs)
    ensures UniqueIds(CycleResult(cs))
  {
    var live := Live(cs);
    var collected := Collected(live);
    var drained := Drained(live);
    assert UniqueIds(drained) by {
      AllDeadRemoved(cs);
      SameIdsDistinct(live, drained);
    }
    if collected != [] {
      DeliverAllKeepsIds(drained, Relayed(collected));
      SameIdsDistinct(drained, DeliverAll(drained, Relayed(collected)));
    }
  }

  /** A cycle that collects nothing queues nothing anywhere. */
  lemma NothingCollectedNothingQueued(cs: seq<Connection>)
    requires Collected(Live(cs)) == []
    ensures |CycleResult(cs)| == |Live(cs)|
    ensures forall j :: 0 <= j < |Live(cs)| ==> CycleResult(cs)[j].outbox == Live(cs)[j].outbox
  {
    CycleOutboxes(cs);
    assert Relayed([]) == [];
  }

  /** Selecting the frames for one connection distributes over concatenation. */
  lemma {:induction false} ForTargetAppend(a: seq<Tagged>, b: seq<Tagged>, id: nat)
    ensures ForTarget(a + b, id) == ForTarget(a, id) + ForTarget(b, id)
    decreases |b|
  {
    if b == [] {
      assert a + b == a;
    } else {
      var init := b[..|b| - 1];
      assert (a + b)[..|a + b| - 1] == a + init;
      assert (a + b)[|a + b| - 1] == b[|b| - 1];
      ForTargetAppend(a, init, id);
    }
  }

  /**
   * A frame is never queued back on the connection it came from: wherever it stands
   * among the relayed frames, removing it changes nothing that connection receives.
   */
  lemma NeverEchoed(before: seq<Tagged>, t: Tagged, after: seq<Tagged>, id: nat)
    requires t.origin == id
    ensures ForTarget(before + [t] + after, id) == ForTarget(before + after, id)
  {
    ForTargetAppend(before + [t], after, id);
    ForTargetAppend(before, [t], id);
    ForTargetAppend(before, after, id);
    assert ForTarget([t], id) == [] by {
      assert [t][..0] == [];
    }
  }

  /**
   * Three peers: a data frame `f` and a command frame `g` sent by the first peer reach
   * the other two, `f` only, and nothing is queued back on the sender.
   */
  lemma ThreePeerScenario(a: Connection, b: Connection, c: Connection, f: KissFrame, g: KissFrame)
    requires a.connected && b.connected && c.connected
    requires a.id != b.id && a.id != c.id && b.id != c.id
    requires a.inbox == [f, g] && b.inbox == [] && c.inbox == []
    requires f.command == 0 && g.command != 0
    ensures CycleResult([a, b, c])
         == [a.(inbox := []),
             b.(outbox := b.outbox + [KissEncoding.EncodeFrame(f)]),
             c.(outbox := c.outbox + [KissEncoding.EncodeFrame(f)])]
  {
    var cs := [a, b, c];
    var t := Tagged(a.id, f);
    var drained := [a.(inbox := []), b, c];
    assert CycleResult(cs) == DeliverAll(Drained(cs), [t]) by {
      ThreePeerRelayed(a, b, c, f, g);
      ThreePeerCollected(a, b, c, f, g);
    }
    assert Drained(cs) == drained by {
      assert b.(inbox := []) == b && c.(inbox := []) == c;
    }
    DeliverSingle(drained, t);
    assert QueueFrame(b, f) == b.(outbox := b.outbox + [KissEncoding.EncodeFrame(f)]);
    assert QueueFrame(c, f) == c.(outbox := c.outbox + [KissEncoding.EncodeFrame(f)]);
  }

  lemma DeliverSingle(cs: seq<Connection>, t: Tagged)
    ensures DeliverAll(cs, [t]) == DeliverFrame(cs, t)
  {
    assert [t][..0] == [];
  }

  lemma ThreePeerRelayed(a: Connection, b: Connection, c: Connection, f: KissFrame, g: KissFrame)
    requires a.connected && b.connected && c.connected
    requires a.inbox == [f, g] && b.inbox == [] && c.inbox == []
    requires f.command == 0 && g.command != 0
    ensures Live([a, b, c]) == [a, b, c]
    ensures Relayed(Collected(Live([a, b, c]))) == [Tagged(a.id, f)]
  {
    LiveAllConnected([a, b, c]);
    ThreePeerCollected(a, b, c, f, g);
    var ts := [Tagged(a.id, f), Tagged(a.id, g)];
    assert ts[1..] == [Tagged(a.id, g)];
    assert DataFrames(ts[1..]) == [];
    assert DataFrames(ts) == [Tagged(a.id, f)];
  }

  lemma {:induction false} LiveAllConnected(cs: seq<Connection>)
    requires forall i :: 0 <= i < |cs| ==> cs[i].connected
    ensures Live(cs) == cs
  {
    if cs != [] {
      LiveAllConnected(cs[1..]);
    }
  }

  lemma ThreePeerCollected(a: Connection, b: Connection, c: Connection, f: KissFrame, g: KissFrame)
    requires a.connected && b.connected && c.connected
    requires a.inbox == [f, g] && b.inbox == [] && c.inbox == []
    ensures Collected([a, b, c]) == [Tagged(a.id, f), Tagged(a.id, g)]
  {
    var cs := [a, b, c];
    assert cs[..2] == [a, b];
    assert [a, b][..1] == [a];
    assert [a][..0] == [];
    assert Collected([a]) == Tag(a.id, [f, g]);
    assert Collected([a, b]) == Collected([a]);
  }

  /** Removing the next dead connection extends the set of removed ids by its id. */
  lemma RemoveOneMore(original: seq<Connection>, dead: seq<Connection>, k: nat)
    requires UniqueIds(original) && k < |dead|
    ensures RemoveFirst(WithoutIds(original, Ids(dead[..k])), dead[k].id) == WithoutIds(original, Ids(dead[..k + 1]))
  {
    var removed, id := Ids(dead[..k]), dead[k].id;
    var rest := WithoutIds(original, removed);
    assert RemoveFirst(rest, id) == WithoutIds(rest, {id}) by {
      WithoutIdsUnique(original, removed);
      RemoveFirstUnique(rest, id);
    }
    assert WithoutIds(rest, {id}) == WithoutIds(original, removed + {id}) by {
      WithoutIdsTwice(original, removed, {id});
    }
    assert removed + {id} == Ids(dead[..k + 1]) by {
      assert dead[..k + 1] == dead[..k] + [dead[k]];
      IdsSnoc(dead[..k], dead[k]);
    }
  }

  /** Removing the ids of all dead connections leaves the live ones, still with distinct ids. */
  lemma AllDeadRemoved(original: seq<Connection>)
    requires UniqueIds(original)
    ensures WithoutIds(original, Ids(Dead(original))) == Live(original)
    ensures UniqueIds(Live(original))
  {
    DeadIds(original);
    DeadIdsGiveLive(original, Ids(Dead(original)));
    WithoutIdsUnique(original, Ids(Dead(original)));
  }

  // ---------------------------------------------------------------------------
  // The registry

  /** The relay's registry of connections, `connections` in Program.cs. */
  class VirtualChannel {
    var connections: seq<Connection>

    ghost predicate Valid()
      reads this
    {
      UniqueIds(connections)
    }

    constructor ()
      ensures Valid() && connections == []
    {
      connections := [];
    }

    /** The accept loop registering a new client (line 87); `id` stands for the new object. */
    method Accept(id: nat, connected: bool)
      requires Valid() && id !in Ids(connections)
      modifies this
      ensures Valid()
      ensures connections == old(connections) + [NewConnection(id, connected)]
    {
      connections := connections + [NewConnection(id, connected)];
      forall i, j | 0 <= i < j < |connections|
        ensures connections[i].id != connections[j].id
      {
        if j == |connections| - 1 {
          assert connections[i] in old(connections);
        }
      }
    }

    /** Clearing lost connections: each dead one is removed from the registry in turn. */
    method RemoveDeadConnections()
      requires Valid()
      modifies this
      ensures Valid()
      ensures connections == Live(old(connections))
    {
      ghost var original := connections;
      var deadConnections := Dead(connections);
      var k := 0;
      assert connections == WithoutIds(original, Ids(deadConnections[..0])) by {
        assert deadConnections[..0] == [];
        assert Ids(deadConnections[..0]) == {};
        NoIdLeft(original, {});
      }
      while k < |deadConnections|
        invariant 0 <= k <= |deadConnections|
        invariant connections == WithoutIds(original, Ids(deadConnections[..k]))
      {
        RemoveOneMore(original, deadConnections, k);
        connections := RemoveFirst(connections, deadConnections[k].id);
        k := k + 1;
      }
      assert deadConnections[..k] == deadConnections;
      AllDeadRemoved(original);
    }

    /** Collecting the frames of every connected connection, draining each one. */
    method CollectFrames() returns (frames: seq<Tagged>)
      modifies this
      ensures frames == Collected(old(connections))
      ensures connections == Drained(old(connections))
    {
      ghost var original := connections;
      frames := [];
      var i := 0;
      while i < |connections|
        invariant |connections| == |original| && 0 <= i <= |original|
        invariant frames == Collected(original[..i])
        invariant forall j :: 0 <= j < i ==> connections[j] == Drain(original[j])
        invariant forall j :: i <= j < |original| ==> connections[j] == original[j]
      {
        if connections[i].connected {
          var taken, drained := TakeOutstandingFrames(connections[i]);
          frames := frames + Tag(connections[i].id, taken);
          connections := connections[i := drained];
        }
        assert original[..i + 1][..i] == original[..i];
        i := i + 1;
      }
      assert original[..i] == original;
    }

    /** Handing each frame to every connection but its originator, if still connected. */
    method Broadcast(frames: seq<Tagged>)
      modifies this
      ensures connections == DeliverAll(old(connections), frames)
    {
      ghost var original := connections;
      var k := 0;
      while k < |frames|
        invariant 0 <= k <= |frames|
        invariant connections == DeliverAll(original, frames[..k])
      {
        var frame := frames[k];
        ghost var before := connections;
        var j := 0;
        while j < |connections|
          invariant |connections| == |before| && 0 <= j <= |before|
          invariant forall i :: 0 <= i < j ==> connections[i] == DeliverTo(before[i], frame)
          invariant forall i :: j <= i < |before| ==> connections[i] == before[i]
        {
          if connections[j].id != frame.origin {
            if connections[j].connected {
              connections := connections[j := QueueFrame(connections[j], frame.frame)];
            }
          }
          j := j + 1;
        }
        assert frames[..k + 1][..k] == frames[..k];
        k := k + 1;
      }
      assert frames[..k] == frames;
    }

    /** One pass of the coordinator loop. */
    method RelayCycle()
      requires Valid()
      modifies this
      ensures Valid()
      ensures connections == CycleResult(old(connections))
    {
      ghost var original := connections;
      CycleKeepsIdsDistinct(original);
      RemoveDeadConnections();
      var frames := CollectFrames();
      if |frames| == 0 {
        return;
      }
      frames := DataFrames(frames);
      frames := SortByCreated(frames);
      Broadcast(frames);
    }
  }
}
