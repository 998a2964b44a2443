/**
 * The signaling relay of signaling_server.py: the room table `ROOMS`, the
 * room id taken from the connection path, and the per-connection handler
 * that joins a room, relays every message to the other members and leaves
 * the room when it ends.
 *
 * Handlers run one at a time here: each call below is one step of one
 * handler coroutine, and any interleaving of those steps is a sequence of
 * calls. A connection is a `ConnId`; the relay keeps, for each running
 * handler, the room its local `room_id` names.
 */
module Signaling {

  type ConnId = nat
  type Rooms = map<string, set<ConnId>>

  /** What happened to the room table: a handler added or removed its
      connection. */
  datatype Event = Joined(conn: ConnId, room: string) | Left(conn: ConnId, room: string)

  /** One `peer.send(message)` that completed. */
  datatype Delivery = Delivery(peer: ConnId, payload: string)

  /** The peers a sequence of deliveries reached. */
  function Recipients(sent: seq<Delivery>): set<ConnId> {
    set k | 0 <= k < |sent| :: sent[k].peer
  }

  // ---------------------------------------------------------------------
  // Room id: `path.strip("/").split("/")[-1]`

  /** `s.lstrip("/")` */
  function DropLeadingSlashes(s: string): (t: string)
    ensures t == [] || t[0] != '/'
  {
    if s != [] && s[0] == '/' then DropLeadingSlashes(s[1..]) else s
  }

  /** `s.rstrip("/")` */
  function DropTrailingSlashes(s: string): (t: string)
    ensures t == [] || t[|t| - 1] != '/'
  {
    if s != [] && s[|s| - 1] == '/' then DropTrailingSlashes(s[..|s| - 1]) else s
  }

  /** Index of the first '/' in `s`, or |s|. */
  function FirstSlash(s: string): (i: nat)
    ensures i <= |s|
    ensures forall k :: 0 <= k < i ==> s[k] != '/'
    ensures i < |s| ==> s[i] == '/'
  {
    if s == [] || s[0] == '/' then 0 else 1 + FirstSlash(s[1..])
  }

  /** Python's `s.split("/")`: always at least one piece, none holding a
      '/'. */
  function SplitSlash(s: string): (parts: seq<string>)
    ensures |parts| >= 1
    ensures forall k :: 0 <= k < |parts| ==> '/' !in parts[k]
    decreases |s|
  {
    var i := FirstSlash(s);
    if i == |s| then [s] else [s[..i]] + SplitSlash(s[i + 1..])
  }

  /** The room id a connection to `path` joins (signaling_server.py line 12). */
  function RoomId(path: string): (room: string)
    ensures '/' !in room
  {
    var parts := SplitSlash(DropLeadingSlashes(DropTrailingSlashes(path)));
    parts[|parts| - 1]
  }

  predicate AllSlashes(t: string) {
    forall k :: 0 <= k < |t| ==> t[k] == '/'
  }

  lemma {:induction false} SplitWithoutSlash(r: string)
    requires '/' !in r
    ensures SplitSlash(r) == [r]
  {
  }

  lemma {:induction false} LastPieceAfterSlash(u: string, r: string)
    requires '/' !in r
    ensures var parts := SplitSlash(u + "/" + r); parts[|parts| - 1] == r
    decreases |u|
  {
    var s := u + "/" + r;
    assert s[|u|] == '/';
    var i := FirstSlash(s);
    if i < |u| {
      assert s[i + 1..] == u[i + 1..] + "/" + r;
      LastPieceAfterSlash(u[i + 1..], r);
    } else {
      assert s[i + 1..] == r;
      SplitWithoutSlash(r);
    }
  }

  lemma {:induction false} LastPieceAfterLeadingStrip(w: string, r: string)
    requires r != [] && '/' !in r
    ensures var parts := SplitSlash(DropLeadingSlashes(w + "/" + r)); parts[|parts| - 1] == r
    decreases |w|
  {
    var s := w + "/" + r;
    if w == [] {
      assert s[1..] == r;
      assert r[0] in r;
      SplitWithoutSlash(r);
    } else if w[0] == '/' {
      assert s[1..] == w[1..] + "/" + r;
      LastPieceAfterLeadingStrip(w[1..], r);
    } else {
      LastPieceAfterSlash(w, r);
    }
  }

  lemma {:induction false} TrailingStrip(s: string, t: string)
    requires s != [] && s[|s| - 1] != '/'
    requires AllSlashes(t)
    ensures DropTrailingSlashes(s + t) == s
    decreases |t|
  {
    if t == [] {
      assert s + t == s;
    } else {
      assert (s + t)[..|s + t| - 1] == s + t[..|t| - 1];
      TrailingStrip(s, t[..|t| - 1]);
    }
  }

  /** The room id is the last '/'-separated segment once all leading and
      trailing '/' are stripped: `<anything>/<room>` and `<anything>/<room>/`
      both name `<room>`. */
  lemma RoomIdOfPath(prefix: string, room: string, trailing: string)
    requires room != [] && '/' !in room
    requires AllSlashes(trailing)
    ensures RoomId(prefix + "/" + room + trailing) == room
  {
    var core := prefix + "/" + room;
    assert core[|core| - 1] == room[|room| - 1] && room[|room| - 1] in room;
    TrailingStrip(core, trailing);
    LastPieceAfterLeadingStrip(prefix, room);
  }

  /** The endpoint the peers connect to, `/ws/testroom`, names `testroom`. */
  lemma RoomIdExample(path: string)
    requires path == "/ws/testroom"
    ensures RoomId(path) == "testroom"
  {
    RoomIdOfPath(path[..3], path[4..], []);
    assert path[..3] + "/" + path[4..] + [] == path;
  }

  // ---------------------------------------------------------------------
  // The room table as a function of what happened to it

  /** `ROOMS.get(room, set())` */
  function Members(rooms: Rooms, room: string): (members: set<ConnId>)
    ensures room in rooms ==> members == rooms[room]
    ensures room !in rooms ==> members == {}
  {
    if room in rooms then rooms[room] else {}
  }

  /** One update of the table: `ROOMS[room].add(conn)` after creating the
      room if needed, or `ROOMS[room].remove(conn)`. Rooms are never
      deleted. */
  function Apply(rooms: Rooms, e: Event): (next: Rooms)
    ensures next.Keys == rooms.Keys + {e.room}
  {
    match e
    case Joined(c, r) => rooms[r := Members(rooms, r) + {c}]
    case Left(c, r) => rooms[r := Members(rooms, r) - {c}]
  }

  /** The table after the given updates, starting from the empty table. */
  function Replay(history: seq<Event>): (rooms: Rooms)
    ensures forall i :: 0 <= i < |history| ==> history[i].room in rooms
    decreases |history|
  {
    if history == [] then map[]
    else Apply(Replay(history[..|history| - 1]), history[|history| - 1])
  }

  /** The connection that joined at step `i` left that room afterwards. */
  ghost predicate LeftSince(history: seq<Event>, i: nat)
    requires i < |history|
  {
    exists j :: i < j < |history| && history[j] == Left(history[i].conn, history[i].room)
  }

  /** Declaratively: the connections that joined `room` and have not left
      it since. */
  ghost function Live(history: seq<Event>, room: string): set<ConnId> {
    set i | 0 <= i < |history| && history[i].Joined? && history[i].room == room && !LeftSince(history, i)
      :: history[i].conn
  }

  lemma LiveStep(h: seq<Event>, e: Event, room: string)
    ensures Live(h + [e], room) ==
      if e.room != room then Live(h, room)
      else if e.Joined? then Live(h, room) + {e.conn}
      else Live(h, room) - {e.conn}
  {
    var H := h + [e];
    var rhs := if e.room != room then Live(h, room)
               else if e.Joined? then Live(h, room) + {e.conn}
               else Live(h, room) - {e.conn};
    forall i | 0 <= i < |h|
      ensures H[i] == h[i]
      ensures LeftSince(H, i) <==> LeftSince(h, i) || e == Left(h[i].conn, h[i].room)
    {
      if LeftSince(H, i) && !LeftSince(h, i) {
        var j :| i < j < |H| && H[j] == Left(H[i].conn, H[i].room);
        assert j == |h|;
      }
      if LeftSince(h, i) {
        var j :| i < j < |h| && h[j] == Left(h[i].conn, h[i].room);
        assert H[j] == h[j];
      }
      if e == Left(h[i].conn, h[i].room) {
        assert H[|h|] == e;
      }
    }
    forall c | c in Live(H, room)
      ensures c in rhs
    {
      var i :| 0 <= i < |H| && H[i].Joined? && H[i].room == room && !LeftSince(H, i) && H[i].conn == c;
      if i < |h| {
        assert c in Live(h, room);
      }
    }
    forall c | c in rhs
      ensures c in Live(H, room)
    {
      if e.room == room && e.Joined? && c == e.conn {
        assert H[|h|] == e;
        assert !LeftSince(H, |h|);
      } else {
        var i :| 0 <= i < |h| && h[i].Joined? && h[i].room == room && !LeftSince(h, i) && h[i].conn == c;
        assert H[i] == h[i];
      }
    }
  }

  /** After any sequence of joins and leaves, a room's member set is
      exactly the connections that joined it and have not left it since. */
  lemma {:induction false} ReplayIsLive(history: seq<Event>, room: string)
    ensures Members(Replay(history), room) == Live(history, room)
    decreases |history|
  {
    if history != [] {
      var h, e := history[..|history| - 1], history[|history| - 1];
      assert history == h + [e];
      ReplayIsLive(h, room);
      LiveStep(h, e, room);
    }
  }

  /** Rooms are never deleted: the table holds every room that was ever
      joined or left, including those whose last member has gone. */
  lemma {:induction false} ReplayKeys(history: seq<Event>)
    ensures Replay(history).Keys == set i | 0 <= i < |history| :: history[i].room
    decreases |history|
  {
    if history != [] {
      var h, e := history[..|history| - 1], history[|history| - 1];
      ReplayKeys(h);
      var keys, all := Replay(history).Keys, set i | 0 <= i < |history| :: history[i].room;
      forall x | x in keys ensures x in all {
        if x != e.room {
          var i :| 0 <= i < |h| && h[i].room == x;
          assert history[i] == h[i];
        }
      }
      forall x | x in all ensures x in keys {
        var i :| 0 <= i < |history| && history[i].room == x;
      }
    }
  }

  // ---------------------------------------------------------------------
  // What relaying a sequence of messages delivers

  /** What relaying one message `m` to the other members `others` sends
      when the peers in `failing` raise: `m` once to each of some
      distinct members, none of them failing, and to every member when
      none fails. */
  predicate RelayedOnce(others: set<ConnId>, m: string, failing: set<ConnId>, out: seq<Delivery>) {
    (forall k :: 0 <= k < |out| ==> out[k].payload == m) &&
    (forall k, l :: 0 <= k < l < |out| ==> out[k].peer != out[l].peer) &&
    Recipients(out) <= others - failing &&
    (others * failing == {} ==> Recipients(out) == others)
  }

  /** The deliveries of consecutive messages, one block after another. */
  function Flatten(blocks: seq<seq<Delivery>>): seq<Delivery>
    decreases |blocks|
  {
    if blocks == [] then [] else Flatten(blocks[..|blocks| - 1]) + blocks[|blocks| - 1]
  }

  /** No `send` raised while relaying the first `n` messages to `others`. */
  predicate NoFailureBefore(others: set<ConnId>, failing: nat -> set<ConnId>, n: nat) {
    forall i: nat :: i < n ==> others * failing(i) == {}
  }

  /** Relaying `inbound` to `others`, where `failing(j)` raise on message
      `j`, sent `sent`: one block per message read, in the order read.
      Message `j` is read only if no `send` raised for an earlier one,
      and reading ends before the last message only because a `send`
      raised. */
  predicate Relayed(
    others: set<ConnId>, inbound: seq<string>, failing: nat -> set<ConnId>,
    blocks: seq<seq<Delivery>>, sent: seq<Delivery>
  ) {
    sent == Flatten(blocks) && RelayedPrefix(others, inbound, failing, blocks) &&
    (|blocks| < |inbound| ==> !NoFailureBefore(others, failing, |blocks|))
  }

  /** Block `j` relays message `j`, which was read because no `send`
      raised for an earlier message. */
  predicate RelayedPrefix(
    others: set<ConnId>, inbound: seq<string>, failing: nat -> set<ConnId>, blocks: seq<seq<Delivery>>
  ) {
    |blocks| <= |inbound| &&
    forall j :: 0 <= j < |blocks| ==>
      NoFailureBefore(others, failing, j) && RelayedOnce(others, inbound[j], failing(j), blocks[j])
  }

  lemma RelayedPrefixStep(
    others: set<ConnId>, inbound: seq<string>, failing: nat -> set<ConnId>,
    blocks: seq<seq<Delivery>>, out: seq<Delivery>
  )
    requires RelayedPrefix(others, inbound, failing, blocks) && |blocks| < |inbound|
    requires NoFailureBefore(others, failing, |blocks|)
    requires RelayedOnce(others, inbound[|blocks|], failing(|blocks|), out)
    ensures RelayedPrefix(others, inbound, failing, blocks + [out])
  {
    forall j | 0 <= j < |blocks| + 1
      ensures NoFailureBefore(others, failing, j) && RelayedOnce(others, inbound[j], failing(j), (blocks + [out])[j])
    {
      if j < |blocks| {
        assert (blocks + [out])[j] == blocks[j];
      }
    }
  }

  lemma FlattenSnoc(blocks: seq<seq<Delivery>>, b: seq<Delivery>)
    ensures Flatten(blocks + [b]) == Flatten(blocks) + b
  {
    assert (blocks + [b])[..|blocks|] == blocks;
  }

  /** No failure in the first `i + 1` messages is no failure in the first
      `i` and none in message `i`. */
  lemma NoFailureStep(others: set<ConnId>, failing: nat -> set<ConnId>, i: nat)
    ensures NoFailureBefore(others, failing, i + 1) <==>
      NoFailureBefore(others, failing, i) && others * failing(i) == {}
  {
    if NoFailureBefore(others, failing, i) && others * failing(i) == {} {
      forall n: nat | n < i + 1 ensures others * failing(n) == {} {
        if n < i {
          assert others * failing(n) == {};
        }
      }
    }
  }

  /** Distinct peers: one delivery per recipient. */
  lemma {:induction false} DistinctRecipients(out: seq<Delivery>)
    requires forall k, l :: 0 <= k < l < |out| ==> out[k].peer != out[l].peer
    ensures |Recipients(out)| == |out|
  {
    if out != [] {
      DistinctRecipients(out[..|out| - 1]);
      RecipientsSnoc(out);
    }
  }

  /** The recipients of all but the last delivery, plus the last one's
      peer, which is new when the peers are distinct. */
  lemma RecipientsSnoc(out: seq<Delivery>)
    requires out != []
    requires forall k, l :: 0 <= k < l < |out| ==> out[k].peer != out[l].peer
    ensures var init, last := out[..|out| - 1], out[|out| - 1].peer;
      Recipients(out) == Recipients(init) + {last} && last !in Recipients(init)
  {
    var init := out[..|out| - 1];
    forall p | p in Recipients(out) ensures p in Recipients(init) + {out[|out| - 1].peer} {
      var k :| 0 <= k < |out| && out[k].peer == p;
      if k < |out| - 1 {
        assert init[k] == out[k];
      }
    }
    forall p | p in Recipients(init) ensures p in Recipients(out) {
      var k :| 0 <= k < |init| && init[k].peer == p;
      assert out[k] == init[k];
    }
  }

  lemma {:induction false} FlattenUniform(blocks: seq<seq<Delivery>>, n: nat)
    requires forall j :: 0 <= j < |blocks| ==> |blocks[j]| == n
    ensures |Flatten(blocks)| == |blocks| * n
  {
    if blocks != [] {
      FlattenUniform(blocks[..|blocks| - 1], n);
      assert (|blocks| - 1) * n + n == |blocks| * n;
    }
  }

  /** When no `send` raises, the handler reads every message and sends
      each of them exactly once to each other member: |inbound| times
      |others| sends in all, each message's sends together and in the
      order the messages were read. */
  lemma RelayedWithoutFailure(
    others: set<ConnId>, inbound: seq<string>, failing: nat -> set<ConnId>,
    blocks: seq<seq<Delivery>>, sent: seq<Delivery>
  )
    requires Relayed(others, inbound, failing, blocks, sent)
    requires NoFailureBefore(others, failing, |inbound|)
    ensures |blocks| == |inbound|
    ensures forall j :: 0 <= j < |inbound| ==> Recipients(blocks[j]) == others && |blocks[j]| == |others|
    ensures |sent| == |inbound| * |others|
  {
    forall j | 0 <= j < |inbound|
      ensures Recipients(blocks[j]) == others && |blocks[j]| == |others|
    {
      assert others * failing(j) == {};
      DistinctRecipients(blocks[j]);
    }
    FlattenUniform(blocks, |others|);
  }

  /** When the first `send` that raises is one for message `f`, the
      handler read messages 0 to `f` and no later one, so nothing after
      `f` is ever sent. */
  lemma RelayedStopsAtFailure(
    others: set<ConnId>, inbound: seq<string>, failing: nat -> set<ConnId>,
    blocks: seq<seq<Delivery>>, sent: seq<Delivery>, f: nat
  )
    requires Relayed(others, inbound, failing, blocks, sent)
    requires f < |inbound| && NoFailureBefore(others, failing, f) && others * failing(f) != {}
    ensures |blocks| == f + 1
    ensures sent == Flatten(blocks[..f]) + blocks[f]
  {
    assert blocks[..f] == blocks[..|blocks| - 1];
  }

  /** One more event: the table is the previous table with it applied. */
  lemma ReplayStep(h: seq<Event>, e: Event)
    ensures Replay(h + [e]) == Apply(Replay(h), e)
  {
    assert (h + [e])[..|h|] == h;
  }

  /** Each running handler is listed in the room its `room_id` names, and
      every listed connection has a running handler for that room. */
  predicate Consistent(rooms: Rooms, roomOf: map<ConnId, string>) {
    (forall c :: c in roomOf ==> roomOf[c] in rooms && c in rooms[roomOf[c]]) &&
    (forall r, c :: r in rooms && c in rooms[r] ==> c in roomOf && roomOf[c] == r)
  }

  /** A new connection joining a room keeps the table consistent. */
  lemma JoinKeepsConsistent(rooms: Rooms, roomOf: map<ConnId, string>, conn: ConnId, room: string)
    requires Consistent(rooms, roomOf) && conn !in roomOf
    ensures Consistent(rooms[room := Members(rooms, room) + {conn}], roomOf[conn := room])
  {
  }

  /** A running handler leaving its room keeps the table consistent. */
  lemma LeaveKeepsConsistent(rooms: Rooms, roomOf: map<ConnId, string>, conn: ConnId)
    requires Consistent(rooms, roomOf) && conn in roomOf
    ensures Consistent(rooms[roomOf[conn] := rooms[roomOf[conn]] - {conn}], roomOf - {conn})
  {
  }

  /** A join followed by the leave of the same connection gives the
      table back, except that the room now exists, and logs both events;
      the members the connection found on joining are those it had
      before. */
  lemma JoinThenLeave(rooms0: Rooms, links0: map<ConnId, string>, h0: seq<Event>,
                      conn: ConnId, room: string,
                      rooms1: Rooms, links1: map<ConnId, string>, h1: seq<Event>,
                      rooms2: Rooms, links2: map<ConnId, string>, h2: seq<Event>)
    requires Consistent(rooms0, links0) && conn !in links0
    requires rooms1 == rooms0[room := Members(rooms0, room) + {conn}]
    requires links1 == links0[conn := room] && h1 == h0 + [Joined(conn, room)]
    requires rooms2 == rooms1[room := rooms1[room] - {conn}]
    requires links2 == links1 - {conn} && h2 == h1 + [Left(conn, room)]
    ensures rooms1[links1[conn]] - {conn} == Members(rooms0, room)
    ensures rooms2 == rooms0[room := Members(rooms0, room)]
    ensures links2 == links0 && h2 == h0 + [Joined(conn, room), Left(conn, room)]
  {
    assert conn !in Members(rooms0, room);
  }

  // ---------------------------------------------------------------------
  // The relay

  class Relay {
    /** `ROOMS` */
    var rooms: Rooms
    /** The `room_id` of each running handler, by its connection. */
    var roomOf: map<ConnId, string>
    /** Every join and leave so far. */
    ghost var history: seq<Event>

    /** The table is the replay of its history, and the running handlers
        are exactly the members of the rooms. */
    ghost predicate Valid()
      reads this
    {
      rooms == Replay(history) && Consistent(rooms, roomOf)
    }

    constructor ()
      ensures Valid() && rooms == map[] && roomOf == map[] && history == []
    {
      rooms := map[];
      roomOf := map[];
      history := [];
    }

    /** A connection arrives at `path` (signaling_server.py lines 12-17):
        its room is created if absent and the connection added to it. */
    method Connect(conn: ConnId, path: string) returns (room: string)
      requires Valid() && conn !in roomOf
      modifies this
      ensures Valid()
      ensures room == RoomId(path)
      ensures rooms == old(rooms)[room := Members(old(rooms), room) + {conn}]
      ensures roomOf == old(roomOf)[conn := room]
      ensures history == old(history) + [Joined(conn, room)]
    {
      room := RoomId(path);
      if room !in rooms {
        rooms := rooms[room := {}];
      }
      rooms := rooms[room := rooms[room] + {conn}];
      JoinKeepsConsistent(old(rooms), roomOf, conn, room);
      ReplayStep(history, Joined(conn, room));
      roomOf := roomOf[conn := room];
      history := history + [Joined(conn, room)];
    }

    /** Relays one message from `sender` (signaling_server.py lines 23-25):
        `send` is called on every other member of the sender's room, in
        the set's iteration order, with the message unchanged. A `send`
        to a member of `failing` raises, which abandons the rest of the
        loop; `ok` is false then. */
    method Broadcast(sender: ConnId, message: string, failing: set<ConnId>)
      returns (sent: seq<Delivery>, ok: bool)
      requires Valid() && sender in roomOf
      ensures forall k :: 0 <= k < |sent| ==> sent[k].payload == message
      ensures forall k, l :: 0 <= k < l < |sent| ==> sent[k].peer != sent[l].peer
      ensures Recipients(sent) <= rooms[roomOf[sender]] - {sender} - failing
      ensures ok <==> (rooms[roomOf[sender]] - {sender}) * failing == {}
      ensures ok ==> Recipients(sent) == rooms[roomOf[sender]] - {sender}
    {
      var members := rooms[roomOf[sender]];
      var remaining := members;
      sent, ok := [], true;
      while remaining != {}
        invariant remaining <= members
        invariant forall k :: 0 <= k < |sent| ==> sent[k].payload == message
        invariant forall k, l :: 0 <= k < l < |sent| ==> sent[k].peer != sent[l].peer
        invariant Recipients(sent) == (members - remaining) - {sender}
        invariant Recipients(sent) * failing == {}
        decreases remaining
      {
        var peer :| peer in remaining;
        if peer != sender {
          if peer in failing {
            assert peer in (members - {sender}) * failing;
            ok := false;
            return;
          }
          ghost var before := sent;
          sent := sent + [Delivery(peer, message)];
          assert Recipients(sent) == Recipients(before) + {peer} by {
            assert forall k :: 0 <= k < |before| ==> sent[k] == before[k];
            assert sent[|before|].peer == peer;
          }
        }
        remaining := remaining - {peer};
      }
    }

    /** The handler's `finally` (signaling_server.py lines 29-30): the
        connection is removed from its room; the room stays in the table
        even when it becomes empty. */
    method Disconnect(conn: ConnId)
      requires Valid() && conn in roomOf
      modifies this
      ensures Valid()
      ensures var room := old(roomOf)[conn];
        room in rooms && rooms == old(rooms)[room := old(rooms)[room] - {conn}] &&
        history == old(history) + [Left(conn, room)]
      ensures roomOf == old(roomOf) - {conn}
    {
      var room := roomOf[conn];
      LeaveKeepsConsistent(rooms, roomOf, conn);
      ReplayStep(history, Left(conn, room));
      rooms := rooms[room := rooms[room] - {conn}];
      roomOf := roomOf - {conn};
      history := history + [Left(conn, room)];
    }

    /** One iteration of `async for message in websocket`: relay the
        message; if a `send` raised, the handler ends and leaves its room.
        When no `send` raises, every other member has the message. */
    method Receive(conn: ConnId, message: string, failing: set<ConnId>)
      returns (sent: seq<Delivery>, ok: bool)
      requires Valid() && conn in roomOf
      modifies this
      ensures Valid()
      ensures var others := old(rooms)[old(roomOf)[conn]] - {conn};
        (ok <==> others * failing == {}) && RelayedOnce(others, message, failing, sent)
      ensures ok ==> rooms == old(rooms) && roomOf == old(roomOf) && history == old(history)
      ensures !ok ==>
        (var room := old(roomOf)[conn];
         rooms == old(rooms)[room := old(rooms)[room] - {conn}] &&
         roomOf == old(roomOf) - {conn} &&
         history == old(history) + [Left(conn, room)])
    {
      sent, ok := Broadcast(conn, message, failing);
      if !ok {
        Disconnect(conn);
      }
    }

    /** The `async for` loop of a handler: relay each inbound message in
        turn (`failing(i)` are the peers whose `send` raises for message
        `i`), stopping at the first `send` that raises; the handler then
        has left its room, as its `finally` does. */
    method RelayAll(conn: ConnId, inbound: seq<string>, failing: nat -> set<ConnId>)
      returns (sent: seq<Delivery>, live: bool, ghost blocks: seq<seq<Delivery>>)
      requires Valid() && conn in roomOf
      modifies this
      ensures Valid()
      ensures var room := old(roomOf)[conn];
        if live then
          rooms == old(rooms) && roomOf == old(roomOf) && history == old(history)
        else
          rooms == old(rooms)[room := old(rooms)[room] - {conn}] &&
          roomOf == old(roomOf) - {conn} &&
          history == old(history) + [Left(conn, room)]
      ensures var others := old(rooms)[old(roomOf)[conn]] - {conn};
        (live <==> NoFailureBefore(others, failing, |inbound|)) &&
        Relayed(others, inbound, failing, blocks, sent)
    {
      ghost var others := rooms[roomOf[conn]] - {conn};
      sent, blocks := [], [];
      var i := 0;
      live := true;
      while i < |inbound| && live
        invariant 0 <= i <= |inbound| && |blocks| == i && sent == Flatten(blocks)
        invariant Valid()
        invariant var room := old(roomOf)[conn];
          if live then
            rooms == old(rooms) && roomOf == old(roomOf) && history == old(history)
          else
            rooms == old(rooms)[room := old(rooms)[room] - {conn}] &&
            roomOf == old(roomOf) - {conn} &&
            history == old(history) + [Left(conn, room)]
        invariant live <==> NoFailureBefore(others, failing, i)
        invariant RelayedPrefix(others, inbound, failing, blocks)
      {
        var out, ok := Receive(conn, inbound[i], failing(i));
        NoFailureStep(others, failing, i);
        FlattenSnoc(blocks, out);
        RelayedPrefixStep(others, inbound, failing, blocks, out);
        sent, blocks := sent + out, blocks + [out];
        live := ok;
        i := i + 1;
      }
      if i < |inbound| {
        assert !NoFailureBefore(others, failing, i);
        assert !NoFailureBefore(others, failing, |inbound|);
      }
    }

    /** The `try`/`finally` of a handler (signaling_server.py lines 18-30):
        relay until the channel closes or a `send` raises, then the
        connection leaves its room, exactly once either way. */
    method RelayThenLeave(conn: ConnId, inbound: seq<string>, failing: nat -> set<ConnId>)
      returns (sent: seq<Delivery>, ghost blocks: seq<seq<Delivery>>)
      requires Valid() && conn in roomOf
      modifies this
      ensures Valid()
      ensures var room := old(roomOf)[conn];
        rooms == old(rooms)[room := old(rooms)[room] - {conn}] &&
        roomOf == old(roomOf) - {conn} &&
        history == old(history) + [Left(conn, room)]
      ensures Relayed(old(rooms)[old(roomOf)[conn]] - {conn}, inbound, failing, blocks, sent)
    {
      var live;
      sent, live, blocks := RelayAll(conn, inbound, failing);
      if live {
        Disconnect(conn);
      }
    }

    /** A whole handler run with no other handler interleaved: join the
        room named by `path`, relay to the members already there, leave.
        The table ends as it was except that the room now exists, and the
        history records one join and one leave of the connection. */
    method Serve(conn: ConnId, path: string, inbound: seq<string>, failing: nat -> set<ConnId>)
      returns (sent: seq<Delivery>, ghost blocks: seq<seq<Delivery>>)
      requires Valid() && conn !in roomOf
      modifies this
      ensures Valid()
      ensures var room := RoomId(path);
        rooms == old(rooms)[room := Members(old(rooms), room)] &&
        history == old(history) + [Joined(conn, room), Left(conn, room)]
      ensures roomOf == old(roomOf)
      ensures Relayed(Members(old(rooms), RoomId(path)), inbound, failing, blocks, sent)
    {
      ghost var rooms0, links0, h0 := rooms, roomOf, history;
      var room := Connect(conn, path);
      ghost var rooms1, links1, h1 := rooms, roomOf, history;
      sent, blocks := RelayThenLeave(conn, inbound, failing);
      JoinThenLeave(rooms0, links0, h0, conn, room, rooms1, links1, h1, rooms, roomOf, history);
    }
  }
}
