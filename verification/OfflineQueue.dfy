/** The offline event queue of a node and the receiver it uploads to: at-least-once delivery made
    exactly-once by the receiver's primary key. */
module OfflineQueue {
  import opened Hashing

  const BATCH := 100
  const MAX_BODY := 1_000_000

  datatype Payload = Payload(ts: int, kind: string, msg: string, sig: string)

  // A row as it is sent.
  datatype Item = Item(id: int, payload: Payload)

  datatype Row = Row(item: Item, synced: bool)

  // ---------- the node's table, in rowid order ----------

  ghost predicate Ascending(t: seq<Row>) {
    forall i, j :: 0 <= i < j < |t| ==> t[i].item.id < t[j].item.id
  }

  // `INTEGER PRIMARY KEY` without AUTOINCREMENT: one past the largest id present.
  function NextId(t: seq<Row>): int {
    if t == [] then 1 else t[|t| - 1].item.id + 1
  }

  function Added(t: seq<Row>, p: Payload): seq<Row> {
    t + [Row(Item(NextId(t), p), false)]
  }

  // `SELECT ... WHERE synced=0 ORDER BY id LIMIT k`.
  function FirstPending(t: seq<Row>, k: nat): (r: seq<Item>)
    ensures |r| <= k
  {
    if t == [] || k == 0 then []
    else if t[0].synced then FirstPending(t[1..], k)
    else [t[0].item] + FirstPending(t[1..], k - 1)
  }

  function Ids(items: seq<Item>): set<int> {
    set x | x in items :: x.id
  }

  // `UPDATE events SET synced=1 WHERE id=?` for every id.
  function Marked(t: seq<Row>, ids: set<int>): (r: seq<Row>)
    ensures |r| == |t|
    ensures forall i :: 0 <= i < |t| ==> r[i] == t[i].(synced := t[i].synced || t[i].item.id in ids)
  {
    if t == [] then [] else [t[0].(synced := t[0].synced || t[0].item.id in ids)] + Marked(t[1..], ids)
  }

  predicate Old(r: Row, cutoff: int) {
    r.synced && r.item.payload.ts < cutoff
  }

  // `DELETE FROM events WHERE synced=1 AND ts<?`.
  function Purged(t: seq<Row>, cutoff: int): seq<Row> {
    if t == [] then []
    else (if Old(t[0], cutoff) then [] else [t[0]]) + Purged(t[1..], cutoff)
  }

  function PendingCount(t: seq<Row>): nat {
    if t == [] then 0 else (if t[0].synced then 0 else 1) + PendingCount(t[1..])
  }

  // ---------- the receiver ----------

  datatype Body = Malformed | Batch(node: string, rows: seq<Item>)

  datatype Request = Request(length: Option<int>, node: string, raw: string, sig: string)

  // Signature checking, JSON parsing, the text an event is signed as, and the id of a public key
  // (None for text that is not 32 bytes of hexadecimal).
  datatype World = World(
    verify: (string, string, string) -> bool,
    parse: string -> Body,
    eventText: (string, Payload) -> string,
    nodeIdOf: string -> Option<string>)

  datatype Server = Server(nodes: map<string, string>, events: map<(string, int), Payload>)

  predicate EventsSigned(w: World, pub: string, node: string, rows: seq<Item>) {
    forall x :: x in rows ==> w.verify(pub, w.eventText(node, x.payload), x.payload.sig)
  }

  // `INSERT OR IGNORE` of every row, in order.
  function StoreAll(events: map<(string, int), Payload>, node: string, rows: seq<Item>): map<(string, int), Payload>
    decreases |rows|
  {
    if rows == [] then events
    else
      var key := (node, rows[0].id);
      StoreAll(if key in events then events else events[key := rows[0].payload], node, rows[1..])
  }

  // The status answered to a POST, and the server after it.
  function Post(w: World, s: Server, r: Request): (int, Server) {
    if r.length.None? then (400, s)
    else if r.length.value < 0 || r.length.value > MAX_BODY then (413, s)
    else if r.node !in s.nodes then (401, s)
    else if !w.verify(s.nodes[r.node], r.raw, r.sig) then (401, s)
    else match w.parse(r.raw)
      case Malformed => (400, s)
      case Batch(node, rows) =>
        if node != r.node || !EventsSigned(w, s.nodes[r.node], node, rows) then (400, s)
        else (200, s.(events := StoreAll(s.events, node, rows)))
  }

  function Enrolled(w: World, s: Server, node: string, pub: string): Server {
    if w.nodeIdOf(pub) == Some(node) then s.(nodes := s.nodes[node := pub]) else s
  }

  function Revoked(s: Server, node: string): Server {
    s.(nodes := s.nodes - {node})
  }

  // ---------- the protocol ----------

  // One node `n`, the receiver, and a network that may lose, delay, reorder and repeat: a batch
  // once sent can be delivered any number of times or never, and so can an answer.
  // `added` and `top` record the history: every row ever added, the largest id ever given.
  datatype State = State(table: seq<Row>, server: Server, sent: set<seq<Item>>, answered: set<seq<Item>>,
                         added: set<Item>, top: int)

  datatype Step =
    | Add(payload: Payload)
    | Send
    | Deliver(request: Request)
    | Answer(rows: seq<Item>)
    | Maintain(cutoff: int)
    | Enroll(node: string, pub: string)
    | Revoke(node: string)

  function Start(): State {
    State([], Server(map[], map[]), {}, {}, {}, 0)
  }

  // A step of the node or the receiver; a refused or failed round changes nothing.
  function Next(w: World, n: string, s: State, step: Step): State {
    match step
    case Add(p) =>
      var x := Item(NextId(s.table), p);
      s.(table := Added(s.table, p), added := s.added + {x}, top := if x.id > s.top then x.id else s.top)
    case Send =>
      var rows := FirstPending(s.table, BATCH);
      if rows == [] then s else s.(sent := s.sent + {rows})
    case Deliver(r) =>
      var (code, server) := Post(w, s.server, r);
      if code == 200 && r.node == n then s.(server := server, answered := s.answered + {w.parse(r.raw).rows})
      else s.(server := server)
    case Answer(rows) => if rows in s.answered then s.(table := Marked(s.table, Ids(rows))) else s
    case Maintain(cutoff) => s.(table := Purged(s.table, cutoff))
    case Enroll(node, pub) => s.(server := Enrolled(w, s.server, node, pub))
    case Revoke(node) => s.(server := Revoked(s.server, node))
  }

  // What signatures are trusted for: a body that verifies under a key with the node's id is a
  // batch the node sent, unless it is no batch at all (a single signed event).
  ghost predicate Unforged(w: World, n: string, sent: set<seq<Item>>, r: Request) {
    forall pub :: w.nodeIdOf(pub) == Some(n) && w.verify(pub, r.raw, r.sig) ==>
      w.parse(r.raw).Malformed? || (w.parse(r.raw).node == n && w.parse(r.raw).rows in sent)
  }

  ghost function Used(s: State): set<int> {
    set x | x in s.added :: x.id
  }

  // The hypothesis of the main theorem: an id is never given twice.
  ghost predicate Fresh(s: State, step: Step) {
    step.Add? ==> NextId(s.table) !in Used(s)
  }

  function After(w: World, n: string, steps: seq<Step>): State {
    if steps == [] then Start() else Next(w, n, After(w, n, steps[..|steps| - 1]), steps[|steps| - 1])
  }

  ghost predicate Sound(w: World, n: string, steps: seq<Step>) {
    steps == [] ||
    var s, last := After(w, n, steps[..|steps| - 1]), steps[|steps| - 1];
    Sound(w, n, steps[..|steps| - 1]) && (last.Deliver? ==> Unforged(w, n, s.sent, last.request))
  }

  ghost predicate NeverReuses(w: World, n: string, steps: seq<Step>) {
    steps == [] ||
    (NeverReuses(w, n, steps[..|steps| - 1]) && Fresh(After(w, n, steps[..|steps| - 1]), steps[|steps| - 1]))
  }

  // ---------- what every reachable state keeps ----------

  // The receiver holds this row of the node.
  ghost predicate Stored(s: State, n: string, x: Item) {
    (n, x.id) in s.server.events && s.server.events[(n, x.id)] == x.payload
  }

  ghost predicate HistoryOk(w: World, n: string, s: State) {
    && (forall x, y :: x in s.added && y in s.added && x.id == y.id ==> x == y)
    && (forall x :: x in s.added ==> 1 <= x.id <= s.top)
    && (forall id :: 1 <= id <= s.top ==> id in Used(s))
    && s.top >= 0
  }

  ghost predicate TableOk(s: State) {
    && Ascending(s.table)
    && forall r :: r in s.table ==> r.item in s.added
  }

  ghost predicate NetworkOk(n: string, s: State) {
    && (forall b, x :: b in s.sent && x in b ==> x in s.added)
    && (forall b, x :: b in s.answered && x in b ==> x in s.added && Stored(s, n, x))
    && s.answered <= s.sent
  }

  ghost predicate ServerOk(w: World, n: string, s: State) {
    && (forall id :: (n, id) in s.server.events ==> Item(id, s.server.events[(n, id)]) in s.added)
    && (n in s.server.nodes ==> w.nodeIdOf(s.server.nodes[n]) == Some(n))
  }

  // Marked rows are stored, and no row is ever lost: it is pending here, or stored there.
  ghost predicate ExactlyOnce(n: string, s: State) {
    && (forall r :: r in s.table && r.synced ==> Stored(s, n, r.item))
    && (forall x :: x in s.added ==> Stored(s, n, x) || Row(x, false) in s.table)
  }

  // A batch once sent holds every row still pending up to its last.
  ghost predicate Covers(b: seq<Item>, t: seq<Row>) {
    forall x, r :: x in b && r in t && !r.synced && r.item.id <= x.id ==> r.item in b
  }

  // The synced rows come before the pending ones.
  ghost predicate SyncedFirst(t: seq<Row>) {
    forall i, j :: 0 <= i < j < |t| && t[j].synced ==> t[i].synced
  }

  ghost predicate InOrder(s: State) {
    && SyncedFirst(s.table)
    && (forall b :: b in s.sent ==> Covers(b, s.table))
  }

  ghost predicate Inv(w: World, n: string, s: State) {
    HistoryOk(w, n, s) && TableOk(s) && NetworkOk(n, s) && ServerOk(w, n, s) && ExactlyOnce(n, s) && InOrder(s)
  }

  // ---------- tables ----------

  lemma {:induction false} StoreAllKeeps(events: map<(string, int), Payload>, node: string, rows: seq<Item>)
    ensures var r := StoreAll(events, node, rows);
      && (forall k :: k in events ==> k in r && r[k] == events[k])
      && (forall x :: x in rows ==> (node, x.id) in r)
      && (forall k :: k in r && k !in events ==> k.0 == node && Item(k.1, r[k]) in rows)
    decreases |rows|
  {
    if rows != [] {
      var key := (node, rows[0].id);
      StoreAllKeeps(if key in events then events else events[key := rows[0].payload], node, rows[1..]);
      assert forall x :: x in rows <==> x == rows[0] || x in rows[1..];
      assert Item(rows[0].id, rows[0].payload) == rows[0];
    }
  }

  lemma {:induction false} PurgedKeeps(t: seq<Row>, cutoff: int)
    ensures forall r :: r in Purged(t, cutoff) <==> r in t && !Old(r, cutoff)
  {
    if t != [] {
      PurgedKeeps(t[1..], cutoff);
      assert forall r :: r in t <==> r == t[0] || r in t[1..];
    }
  }

  lemma {:induction false} PurgedAscending(t: seq<Row>, cutoff: int)
    requires Ascending(t)
    ensures Ascending(Purged(t, cutoff))
  {
    if t != [] {
      assert forall i, j :: 0 <= i < j < |t[1..]| ==> t[1..][i] == t[i + 1] && t[1..][j] == t[j + 1];
      PurgedAscending(t[1..], cutoff);
      PurgedKeeps(t[1..], cutoff);
      var p := Purged(t[1..], cutoff);
      forall r | r in p ensures t[0].item.id < r.item.id {
        assert r in t[1..];
      }
    }
  }

  lemma {:induction false} FirstPendingIn(t: seq<Row>, k: nat)
    ensures forall x :: x in FirstPending(t, k) ==> Row(x, false) in t
  {
    if t == [] || k == 0 {
    } else if t[0].synced {
      FirstPendingIn(t[1..], k);
      assert forall r :: r in t[1..] ==> r in t;
    } else {
      FirstPendingIn(t[1..], k - 1);
      assert forall r :: r in t[1..] ==> r in t;
      assert t[0] == Row(t[0].item, false);
    }
  }

  lemma AscendingTail(t: seq<Row>)
    requires Ascending(t) && t != []
    ensures Ascending(t[1..]) && forall r :: r in t[1..] ==> t[0].item.id < r.item.id
    ensures forall r :: r in t <==> r == t[0] || r in t[1..]
  {
    assert forall i :: 0 <= i < |t[1..]| ==> t[1..][i] == t[i + 1];
  }

  // The batch is the first of the pending rows.
  lemma {:induction false} FirstPendingCovers(t: seq<Row>, k: nat)
    requires Ascending(t)
    ensures Covers(FirstPending(t, k), t)
  {
    var b := FirstPending(t, k);
    if t == [] || k == 0 {
    } else {
      AscendingTail(t);
      var rest := FirstPending(t[1..], if t[0].synced then k else k - 1);
      FirstPendingCovers(t[1..], if t[0].synced then k else k - 1);
      FirstPendingIn(t[1..], if t[0].synced then k else k - 1);
      forall x, r | x in b && r in t && !r.synced && r.item.id <= x.id ensures r.item in b {
        if r == t[0] {
          assert b[0] == t[0].item;
        } else if x in rest {
          assert r in t[1..] && r.item in rest;
        }
      }
    }
  }

  // ---------- one step ----------

  lemma StartInv(w: World, n: string)
    ensures Inv(w, n, Start())
  {
  }

  lemma FreshIsNew(w: World, n: string, s: State)
    requires Inv(w, n, s) && NextId(s.table) !in Used(s)
    ensures NextId(s.table) == s.top + 1
    ensures forall r :: r in s.table ==> r.item.id <= s.top
  {
    if s.table != [] {
      assert s.table[|s.table| - 1] in s.table;
    }
    assert s.top >= 1 ==> 1 in Used(s);
  }

  // `s` with a new row.
  ghost predicate IsAdd(s: State, s': State, x: Item) {
    && s' == s.(table := s.table + [Row(x, false)], added := s.added + {x}, top := x.id)
    && x.id == s.top + 1
    && forall r :: r in s'.table <==> r in s.table || r == Row(x, false)
  }

  lemma AddHistory(w: World, n: string, s: State, s': State, x: Item)
    requires HistoryOk(w, n, s) && IsAdd(s, s', x)
    ensures HistoryOk(w, n, s')
  {
    assert forall id :: id in Used(s') <==> id in Used(s) || id == x.id;
  }

  lemma AddTable(n: string, s: State, s': State, x: Item)
    requires TableOk(s) && IsAdd(s, s', x) && forall y :: y in s.added ==> y.id <= s.top
    ensures TableOk(s')
  {
    assert forall i :: 0 <= i < |s.table| ==> s.table[i] in s.table;
  }

  lemma AddNetwork(w: World, n: string, s: State, s': State, x: Item)
    requires NetworkOk(n, s) && ServerOk(w, n, s) && ExactlyOnce(n, s) && IsAdd(s, s', x)
    ensures NetworkOk(n, s') && ServerOk(w, n, s') && ExactlyOnce(n, s')
  {
    assert forall y :: Stored(s', n, y) <==> Stored(s, n, y);
  }

  lemma AddOrder(n: string, s: State, s': State, x: Item)
    requires InOrder(s) && NetworkOk(n, s) && IsAdd(s, s', x) && forall y :: y in s.added ==> y.id <= s.top
    ensures InOrder(s')
  {
    forall b | b in s'.sent ensures Covers(b, s'.table) {
      assert Covers(b, s.table);
    }
  }

  lemma AddKeeps(w: World, n: string, s: State, p: Payload)
    requires Inv(w, n, s) && NextId(s.table) !in Used(s)
    ensures Inv(w, n, Next(w, n, s, Add(p)))
  {
    FreshIsNew(w, n, s);
    var s', x := Next(w, n, s, Add(p)), Item(NextId(s.table), p);
    assert IsAdd(s, s', x);
    AddHistory(w, n, s, s', x);
    AddTable(n, s, s', x);
    AddNetwork(w, n, s, s', x);
    AddOrder(n, s, s', x);
  }

  lemma SendKeeps(w: World, n: string, s: State)
    requires Inv(w, n, s)
    ensures Inv(w, n, Next(w, n, s, Send))
  {
    var rows := FirstPending(s.table, BATCH);
    FirstPendingIn(s.table, BATCH);
    FirstPendingCovers(s.table, BATCH);
    assert Used(Next(w, n, s, Send)) == Used(s);
  }

  // A batch of the node's own rows, stored.
  lemma StoreOwnRows(w: World, n: string, s: State, rows: seq<Item>, events: map<(string, int), Payload>)
    requires HistoryOk(w, n, s) && ServerOk(w, n, s)
    requires events == StoreAll(s.server.events, n, rows) && forall x :: x in rows ==> x in s.added
    ensures forall id :: (n, id) in events ==> Item(id, events[(n, id)]) in s.added
    ensures forall x :: x in s.added && Stored(s, n, x) ==> (n, x.id) in events && events[(n, x.id)] == x.payload
    ensures forall x :: x in rows ==> (n, x.id) in events && events[(n, x.id)] == x.payload
  {
    StoreAllKeeps(s.server.events, n, rows);
    forall id | (n, id) in events ensures Item(id, events[(n, id)]) in s.added {
      if (n, id) in s.server.events {
        assert events[(n, id)] == s.server.events[(n, id)];
      } else {
        assert Item((n, id).1, events[(n, id)]) in rows;
      }
    }
    forall x | x in rows ensures (n, x.id) in events && events[(n, x.id)] == x.payload {
      assert Item(x.id, events[(n, x.id)]) in s.added;
    }
  }

  lemma OtherNodesRows(n: string, s: State, node: string, rows: seq<Item>)
    requires node != n
    ensures var events := StoreAll(s.server.events, node, rows);
      forall id :: ((n, id) in events <==> (n, id) in s.server.events) &&
        ((n, id) in events ==> events[(n, id)] == s.server.events[(n, id)])
  {
    StoreAllKeeps(s.server.events, node, rows);
  }

  // Everything but the receiver's rows stays as it is.
  ghost predicate IsDelivery(s: State, s': State, events: map<(string, int), Payload>, answered: set<seq<Item>>) {
    s' == s.(server := s.server.(events := events), answered := answered)
  }

  lemma DeliveryKeeps(w: World, n: string, s: State, s': State, events: map<(string, int), Payload>,
                      answered: set<seq<Item>>)
    requires Inv(w, n, s) && IsDelivery(s, s', events, answered) && answered <= s.sent
    requires forall id :: (n, id) in events ==> Item(id, events[(n, id)]) in s.added
    requires forall x :: x in s.added && Stored(s, n, x) ==> (n, x.id) in events && events[(n, x.id)] == x.payload
    requires forall b, x :: b in answered && x in b ==>
               x in s.added && (n, x.id) in events && events[(n, x.id)] == x.payload
    ensures Inv(w, n, s')
  {
    assert Used(s') == Used(s);
    assert forall x :: x in s.added && Stored(s, n, x) ==> Stored(s', n, x);
    assert forall b, x :: b in s'.answered && x in b ==> Stored(s', n, x);
    assert InOrder(s');
  }

  lemma DeliverKeeps(w: World, n: string, s: State, r: Request)
    requires Inv(w, n, s) && Unforged(w, n, s.sent, r)
    ensures Inv(w, n, Next(w, n, s, Deliver(r)))
  {
    var (code, server) := Post(w, s.server, r);
    var s' := Next(w, n, s, Deliver(r));
    if code == 200 {
      var rows := w.parse(r.raw).rows;
      if r.node == n {
        assert w.nodeIdOf(s.server.nodes[n]) == Some(n);
        assert rows in s.sent;
        StoreOwnRows(w, n, s, rows, server.events);
        DeliveryKeeps(w, n, s, s', server.events, s.answered + {rows});
      } else {
        OtherNodesRows(n, s, r.node, rows);
        DeliveryKeeps(w, n, s, s', server.events, s.answered);
      }
    } else {
      assert s' == s;
    }
  }

  lemma MarkedRows(t: seq<Row>, ids: set<int>)
    ensures forall r :: r in Marked(t, ids) ==>
      exists q :: q in t && q.item == r.item && (r.synced <==> q.synced || q.item.id in ids)
    ensures forall q :: q in t ==> q.(synced := q.synced || q.item.id in ids) in Marked(t, ids)
  {
    var m := Marked(t, ids);
    forall r | r in m
      ensures exists q :: q in t && q.item == r.item && (r.synced <==> q.synced || q.item.id in ids)
    {
      var i :| 0 <= i < |m| && m[i] == r;
      assert t[i] in t;
    }
    forall q | q in t ensures q.(synced := q.synced || q.item.id in ids) in m {
      var i :| 0 <= i < |t| && t[i] == q;
      assert m[i] in m;
    }
  }

  lemma AnswerOnce(w: World, n: string, s: State, rows: seq<Item>, s': State)
    requires HistoryOk(w, n, s) && TableOk(s) && NetworkOk(n, s) && ExactlyOnce(n, s)
    requires rows in s.answered && s' == s.(table := Marked(s.table, Ids(rows)))
    ensures TableOk(s') && ExactlyOnce(n, s')
  {
    MarkedRows(s.table, Ids(rows));
    assert forall x :: Stored(s', n, x) <==> Stored(s, n, x);
    forall r | r in s'.table && r.synced ensures Stored(s', n, r.item) {
      MarkedIsStored(w, n, s, rows, r);
    }
    forall x | x in s'.added ensures Stored(s', n, x) || Row(x, false) in s'.table {
      PendingOrStored(w, n, s, rows, x);
    }
  }

  lemma MarkedIsStored(w: World, n: string, s: State, rows: seq<Item>, r: Row)
    requires HistoryOk(w, n, s) && TableOk(s) && NetworkOk(n, s) && ExactlyOnce(n, s)
    requires rows in s.answered && r in Marked(s.table, Ids(rows)) && r.synced
    ensures Stored(s, n, r.item)
  {
    MarkedRows(s.table, Ids(rows));
    var q :| q in s.table && q.item == r.item && (r.synced <==> q.synced || q.item.id in Ids(rows));
    if !q.synced {
      var x :| x in rows && x.id == q.item.id;
      assert x == q.item;
    }
  }

  lemma PendingOrStored(w: World, n: string, s: State, rows: seq<Item>, x: Item)
    requires HistoryOk(w, n, s) && NetworkOk(n, s) && ExactlyOnce(n, s) && rows in s.answered && x in s.added
    ensures Stored(s, n, x) || Row(x, false) in Marked(s.table, Ids(rows))
  {
    if Row(x, false) in s.table {
      MarkedRows(s.table, Ids(rows));
      if x.id in Ids(rows) {
        var y :| y in rows && y.id == x.id;
        assert y == x;
      } else {
        var q := Row(x, false);
        assert q.(synced := q.synced || q.item.id in Ids(rows)) == q;
      }
    }
  }

  lemma MarkedSyncedFirst(t: seq<Row>, rows: seq<Item>)
    requires Ascending(t) && SyncedFirst(t) && Covers(rows, t)
    requires forall x, r :: x in rows && r in t && x.id == r.item.id ==> x == r.item
    ensures SyncedFirst(Marked(t, Ids(rows)))
  {
    var m := Marked(t, Ids(rows));
    forall i, j | 0 <= i < j < |m| && m[j].synced ensures m[i].synced {
      if !t[j].synced {
        var x :| x in rows && x.id == t[j].item.id;
        assert t[i] in t && t[i].item.id < x.id;
      }
    }
  }

  lemma MarkedCovers(b: seq<Item>, t: seq<Row>, ids: set<int>)
    requires Covers(b, t)
    ensures Covers(b, Marked(t, ids))
  {
    var m := Marked(t, ids);
    forall x, r | x in b && r in m && !r.synced && r.item.id <= x.id ensures r.item in b {
      var i :| 0 <= i < |m| && m[i] == r;
      assert t[i] in t && t[i].item == r.item;
    }
  }

  lemma AnswerOrder(w: World, n: string, s: State, rows: seq<Item>, s': State)
    requires HistoryOk(w, n, s) && TableOk(s) && NetworkOk(n, s) && InOrder(s)
    requires rows in s.answered && s' == s.(table := Marked(s.table, Ids(rows)))
    ensures InOrder(s')
  {
    MarkedSyncedFirst(s.table, rows);
    forall b | b in s'.sent ensures Covers(b, s'.table) {
      MarkedCovers(b, s.table, Ids(rows));
    }
  }

  lemma AnswerKeeps(w: World, n: string, s: State, rows: seq<Item>)
    requires Inv(w, n, s)
    ensures Inv(w, n, Next(w, n, s, Answer(rows)))
  {
    var s' := Next(w, n, s, Answer(rows));
    if rows in s.answered {
      AnswerOnce(w, n, s, rows, s');
      AnswerOrder(w, n, s, rows, s');
      assert Used(s') == Used(s);
      assert forall x :: Stored(s', n, x) <==> Stored(s, n, x);
    }
  }

  lemma SyncedFirstCons(r: Row, t: seq<Row>)
    requires SyncedFirst(t) && forall q :: q in t && q.synced ==> r.synced
    ensures SyncedFirst([r] + t)
  {
  }

  lemma {:induction false} PurgedSyncedFirst(t: seq<Row>, cutoff: int)
    requires SyncedFirst(t)
    ensures SyncedFirst(Purged(t, cutoff))
  {
    if t != [] {
      assert forall i :: 0 <= i < |t[1..]| ==> t[1..][i] == t[i + 1];
      PurgedSyncedFirst(t[1..], cutoff);
      PurgedKeeps(t[1..], cutoff);
      forall q | q in t[1..] && q.synced ensures t[0].synced {
        var j :| 0 <= j < |t[1..]| && t[1..][j] == q;
        assert t[j + 1] == q;
      }
      SyncedFirstCons(t[0], Purged(t[1..], cutoff));
      assert [] + Purged(t[1..], cutoff) == Purged(t[1..], cutoff);
    }
  }

  lemma MaintainKeeps(w: World, n: string, s: State, cutoff: int)
    requires Inv(w, n, s)
    ensures Inv(w, n, Next(w, n, s, Maintain(cutoff)))
  {
    var s' := Next(w, n, s, Maintain(cutoff));
    PurgedKeeps(s.table, cutoff);
    PurgedAscending(s.table, cutoff);
    PurgedSyncedFirst(s.table, cutoff);
    assert Used(s') == Used(s);
    assert forall x :: Stored(s', n, x) <==> Stored(s, n, x);
    forall b | b in s'.sent ensures Covers(b, s'.table) {
      assert Covers(b, s.table);
    }
  }

  lemma RegistryKeeps(w: World, n: string, s: State, step: Step)
    requires Inv(w, n, s) && (step.Enroll? || step.Revoke?)
    ensures Inv(w, n, Next(w, n, s, step))
  {
    var s' := Next(w, n, s, step);
    assert s'.server.events == s.server.events;
    assert Used(s') == Used(s);
    assert forall x :: Stored(s', n, x) <==> Stored(s, n, x);
  }

  // Over every interleaving of adding, sending, lost, repeated, delayed and reordered delivery,
  // lost answers, maintenance, enrolment and revocation in which no row id is given twice: every
  // row marked synced is stored under its id with the same content, the receiver holds nothing
  // the node did not add, and every row ever added is pending or stored.
  lemma {:induction false} ExactlyOnceUpload(w: World, n: string, steps: seq<Step>)
    requires Sound(w, n, steps) && NeverReuses(w, n, steps)
    ensures Inv(w, n, After(w, n, steps))
  {
    if steps == [] {
      StartInv(w, n);
    } else {
      var s, last := After(w, n, steps[..|steps| - 1]), steps[|steps| - 1];
      ExactlyOnceUpload(w, n, steps[..|steps| - 1]);
      match last
      case Add(p) => AddKeeps(w, n, s, p);
      case Send => SendKeeps(w, n, s);
      case Deliver(r) => DeliverKeeps(w, n, s, r);
      case Answer(rows) => AnswerKeeps(w, n, s, rows);
      case Maintain(cutoff) => MaintainKeeps(w, n, s, cutoff);
      case Enroll(_, _) => RegistryKeeps(w, n, s, last);
      case Revoke(_) => RegistryKeeps(w, n, s, last);
    }
  }

  // ---------- what the receiver accepts, whoever sends it ----------

  // A row of node `m` that carries a signature of its own text under a key with that node's id.
  ghost predicate RowSigned(w: World, m: string, p: Payload) {
    exists key :: w.nodeIdOf(key) == Some(m) && w.verify(key, w.eventText(m, p), p.sig)
  }

  // Every key is registered under its own id, and every row carries such a signature.
  ghost predicate AllSigned(w: World, s: Server) {
    && (forall m :: m in s.nodes ==> w.nodeIdOf(s.nodes[m]) == Some(m))
    && (forall k :: k in s.events ==> RowSigned(w, k.0, s.events[k]))
  }

  // What a request must be to be accepted, written out.
  ghost predicate Welcome(w: World, s: Server, r: Request) {
    && r.length.Some? && 0 <= r.length.value <= 1_000_000
    && r.node in s.nodes && w.verify(s.nodes[r.node], r.raw, r.sig)
    && w.parse(r.raw).Batch? && w.parse(r.raw).node == r.node
    && forall x :: x in w.parse(r.raw).rows ==>
         w.verify(s.nodes[r.node], w.eventText(r.node, x.payload), x.payload.sig)
  }

  // Accepted if and only if it is, and each other status for its own reason, changing nothing.
  lemma PostExactly(w: World, s: Server, r: Request)
    ensures var (code, s') := Post(w, s, r);
      && (code == 200 <==> Welcome(w, s, r)) && (code != 200 ==> s' == s)
      && (code == 413 <==> r.length.Some? && !(0 <= r.length.value <= 1_000_000))
      && (code == 401 <==> r.length.Some? && 0 <= r.length.value <= 1_000_000
                           && (r.node !in s.nodes || !w.verify(s.nodes[r.node], r.raw, r.sig)))
      && code in [200, 400, 401, 413]
    ensures Post(w, s, r).0 == 200 ==>
      Post(w, s, r).1 == s.(events := StoreAll(s.events, r.node, w.parse(r.raw).rows))
  {
  }

  lemma PostSigned(w: World, s: Server, r: Request)
    requires AllSigned(w, s)
    ensures AllSigned(w, Post(w, s, r).1)
  {
    PostExactly(w, s, r);
    if Post(w, s, r).0 == 200 {
      var rows, after := w.parse(r.raw).rows, Post(w, s, r).1.events;
      StoreAllKeeps(s.events, r.node, rows);
      forall k | k in after ensures RowSigned(w, k.0, after[k]) {
        if k !in s.events {
          assert Item(k.1, after[k]) in rows;
        }
      }
    }
  }

  // In every run, whatever requests are made and by whom, every row the receiver holds of a node carries
  // a signature that is good over the row's own text under a key with that node's id.
  lemma {:induction false} EveryRowSigned(w: World, n: string, steps: seq<Step>)
    ensures AllSigned(w, After(w, n, steps).server)
  {
    if steps != [] {
      var s, last := After(w, n, steps[..|steps| - 1]), steps[|steps| - 1];
      EveryRowSigned(w, n, steps[..|steps| - 1]);
      if last.Deliver? {
        PostSigned(w, s.server, last.request);
      }
    }
  }

  // Of rows with one id, what was stored before stays; otherwise the first in the batch is stored.
  lemma {:induction false} FirstIsStored(events: map<(string, int), Payload>, node: string, rows: seq<Item>, i: nat)
    requires i < |rows| && (node, rows[i].id) !in events
    requires forall j :: 0 <= j < i ==> rows[j].id != rows[i].id
    ensures (node, rows[i].id) in StoreAll(events, node, rows)
    ensures StoreAll(events, node, rows)[(node, rows[i].id)] == rows[i].payload
    decreases |rows|
  {
    var key := (node, rows[0].id);
    var next := if key in events then events else events[key := rows[0].payload];
    if i == 0 {
      StoreAllKeeps(next, node, rows[1..]);
    } else {
      FirstIsStored(next, node, rows[1..], i - 1);
    }
  }

  // ---------- the table's operations, written out ----------

  // Those marked, and no other, are the rows with these ids; nothing else of a row changes.
  lemma MarkedExactly(t: seq<Row>, ids: set<int>, i: nat)
    requires i < |t|
    ensures |Marked(t, ids)| == |t| && Marked(t, ids)[i].item == t[i].item
    ensures Marked(t, ids)[i].synced <==> t[i].synced || t[i].item.id in ids
  {
  }

  // What is deleted: exactly the rows that are synced and older than the cutoff.
  lemma PurgedExactly(t: seq<Row>, cutoff: int, r: Row)
    ensures r in Purged(t, cutoff) <==> r in t && !(r.synced && r.item.payload.ts < cutoff)
  {
    PurgedKeeps(t, cutoff);
  }

  // What is sent: pending rows alone; all of them, or the full number of the lowest ids.
  lemma FirstPendingExactly(t: seq<Row>, k: nat)
    requires Ascending(t)
    ensures |FirstPending(t, k)| <= k
    ensures forall x :: x in FirstPending(t, k) ==> Row(x, false) in t
    ensures forall r, x :: r in t && !r.synced && x in FirstPending(t, k) && r.item.id <= x.id ==>
      r.item in FirstPending(t, k)
    ensures |FirstPending(t, k)| < k ==> forall r :: r in t && !r.synced ==> r.item in FirstPending(t, k)
  {
    FirstPendingIn(t, k);
    FirstPendingCovers(t, k);
    FirstPendingShort(t, k);
  }

  // A batch holds 100 rows at most, pending ones alone, and all of them unless it is full.
  ghost predicate BatchOf(t: seq<Row>, rows: seq<Item>) {
    && |rows| <= 100 && (forall x :: x in rows ==> Row(x, false) in t)
    && (|rows| < 100 ==> forall r :: r in t && !r.synced ==> r.item in rows)
  }

  lemma BatchExactly(t: seq<Row>)
    ensures BatchOf(t, FirstPending(t, BATCH))
  {
    FirstPendingIn(t, 100);
    FirstPendingShort(t, 100);
  }

  lemma {:induction false} FirstPendingShort(t: seq<Row>, k: nat)
    ensures |FirstPending(t, k)| < k ==> forall r :: r in t && !r.synced ==> r.item in FirstPending(t, k)
  {
    if t != [] && k > 0 {
      FirstPendingShort(t[1..], if t[0].synced then k else k - 1);
      assert forall r :: r in t <==> r == t[0] || r in t[1..];
    }
  }

  // The pending rows counted.
  lemma {:induction false} PendingIsCount(t: seq<Row>)
    ensures PendingCount(t) == |set i | 0 <= i < |t| && !t[i].synced|
  {
    var all := set i | 0 <= i < |t| && !t[i].synced;
    if t == [] {
      assert all == {};
    } else {
      var n := |t| - 1;
      PendingIsCount(t[..n]);
      PendingAppend(t[..n], t[n]);
      assert t == t[..n] + [t[n]];
      var before := set i | 0 <= i < n && !t[..n][i].synced;
      assert all == before + (if t[n].synced then {} else {n});
    }
  }

  // ---------- when an id is given twice ----------

  // The next id is new exactly when maintenance has left the newest row in place, and exactly
  // when the receiver has nothing stored under it.
  lemma FreshExactly(w: World, n: string, s: State)
    requires Inv(w, n, s)
    ensures NextId(s.table) !in Used(s) <==>
      (if s.table == [] then s.top == 0 else s.table[|s.table| - 1].item.id == s.top)
    ensures NextId(s.table) !in Used(s) <==> (n, NextId(s.table)) !in s.server.events
  {
    var id := NextId(s.table);
    if s.table != [] {
      assert s.table[|s.table| - 1] in s.table;
    }
    if (n, id) in s.server.events {
      assert Item(id, s.server.events[(n, id)]).id in Used(s);
    }
    if id in Used(s) {
      var x :| x in s.added && x.id == id;
      forall r | r in s.table ensures r.item.id < id {
        var i :| 0 <= i < |s.table| && s.table[i] == r;
      }
      assert Row(x, false) !in s.table;
      assert Stored(s, n, x);
    }
  }

  // Maintenance keeps the next id new unless it deletes the newest row.
  lemma MaintenanceKeepsTop(t: seq<Row>, cutoff: int)
    requires t != [] && Ascending(t) && forall r :: r in t ==> r.item.id >= 1
    ensures NextId(Purged(t, cutoff)) == NextId(t) <==> !Old(t[|t| - 1], cutoff)
  {
    var last, p := t[|t| - 1], Purged(t, cutoff);
    PurgedKeeps(t, cutoff);
    PurgedAscending(t, cutoff);
    assert last in t;
    if last in p {
      LastIsTop(p, last);
    }
    if p != [] {
      assert p[|p| - 1] in p;
      LastIsTop(t, p[|p| - 1]);
    }
  }

  lemma LastIsTop(t: seq<Row>, q: Row)
    requires Ascending(t) && q in t
    ensures q.item.id <= t[|t| - 1].item.id && (q.item.id == t[|t| - 1].item.id ==> q == t[|t| - 1])
  {
    var i :| 0 <= i < |t| && t[i] == q;
  }

  // What can be checked before a deletion: it leaves the newest row.
  predicate NewestStays(t: seq<Row>, cutoff: int) {
    t == [] || !Old(t[|t| - 1], cutoff)
  }

  ghost predicate KeepsNewest(w: World, n: string, steps: seq<Step>) {
    steps == [] ||
    var s, last := After(w, n, steps[..|steps| - 1]), steps[|steps| - 1];
    KeepsNewest(w, n, steps[..|steps| - 1]) && (last.Maintain? ==> NewestStays(s.table, last.cutoff))
  }

  // The newest row ever added is still there.
  ghost predicate NewestThere(s: State) {
    && Ascending(s.table) && NextId(s.table) == s.top + 1 && s.top >= 0
    && (forall r :: r in s.table ==> r.item.id >= 1)
    && (forall id :: id in Used(s) <==> 1 <= id <= s.top)
  }

  lemma AddedAscending(t: seq<Row>, p: Payload)
    requires Ascending(t)
    ensures Ascending(Added(t, p)) && NextId(Added(t, p)) == NextId(t) + 1
  {
  }

  lemma MarkedNewest(t: seq<Row>, ids: set<int>)
    requires Ascending(t) && forall r :: r in t ==> r.item.id >= 1
    ensures Ascending(Marked(t, ids)) && NextId(Marked(t, ids)) == NextId(t)
    ensures forall r :: r in Marked(t, ids) ==> r.item.id >= 1
  {
    forall r | r in Marked(t, ids) ensures r.item.id >= 1 {
      var i :| 0 <= i < |t| && Marked(t, ids)[i] == r;
      assert t[i] in t;
    }
  }

  lemma AddKeepsNewest(w: World, n: string, s: State, p: Payload)
    requires NewestThere(s)
    ensures NewestThere(Next(w, n, s, Add(p)))
  {
    var s', x := Next(w, n, s, Add(p)), Item(NextId(s.table), p);
    AddedAscending(s.table, p);
    assert forall r :: r in s'.table <==> r in s.table || r == Row(x, false);
    assert forall id :: id in Used(s') <==> id in Used(s) || id == x.id;
  }

  lemma StepKeepsNewest(w: World, n: string, s: State, step: Step)
    requires NewestThere(s) && (step.Maintain? ==> NewestStays(s.table, step.cutoff))
    ensures NewestThere(Next(w, n, s, step)) && Fresh(s, step)
  {
    var s' := Next(w, n, s, step);
    if step.Add? {
      AddKeepsNewest(w, n, s, step.payload);
    } else {
      assert Used(s') == Used(s);
      if step.Answer? {
        MarkedNewest(s.table, Ids(step.rows));
      } else if step.Maintain? {
        PurgedNewest(s.table, step.cutoff);
      }
    }
  }

  lemma PurgedNewest(t: seq<Row>, cutoff: int)
    requires Ascending(t) && (forall r :: r in t ==> r.item.id >= 1) && NewestStays(t, cutoff)
    ensures Ascending(Purged(t, cutoff)) && NextId(Purged(t, cutoff)) == NextId(t)
    ensures forall r :: r in Purged(t, cutoff) ==> r.item.id >= 1
  {
    if t != [] {
      PurgedKeeps(t, cutoff);
      PurgedAscending(t, cutoff);
      MaintenanceKeepsTop(t, cutoff);
    }
  }

  // No id is ever given twice while maintenance leaves the newest row.
  lemma {:induction false} GuardedRun(w: World, n: string, steps: seq<Step>)
    requires KeepsNewest(w, n, steps)
    ensures NeverReuses(w, n, steps) && NewestThere(After(w, n, steps))
  {
    if steps == [] {
      assert Used(Start()) == {};
    } else {
      GuardedRun(w, n, steps[..|steps| - 1]);
      StepKeepsNewest(w, n, After(w, n, steps[..|steps| - 1]), steps[|steps| - 1]);
    }
  }

  // Upload is exactly-once, over every interleaving, while maintenance leaves the newest row.
  lemma GuardedUpload(w: World, n: string, steps: seq<Step>)
    requires Sound(w, n, steps) && KeepsNewest(w, n, steps)
    ensures Inv(w, n, After(w, n, steps))
  {
    GuardedRun(w, n, steps);
    ExactlyOnceUpload(w, n, steps);
  }

  // The guard is exact: the row added after a deletion gets a new id if and only if the deletion
  // left the newest row.
  lemma GuardIsExact(w: World, n: string, s: State, cutoff: int, p: Payload)
    requires NewestThere(s)
    ensures Fresh(Next(w, n, s, Maintain(cutoff)), Add(p)) <==> NewestStays(s.table, cutoff)
  {
    var t, s' := s.table, Next(w, n, s, Maintain(cutoff));
    assert Used(s') == Used(s);
    if t != [] {
      MaintenanceKeepsTop(t, cutoff);
      PurgedKeeps(t, cutoff);
      if s'.table != [] {
        assert s'.table[|s'.table| - 1] in s'.table;
        LastIsTop(t, s'.table[|s'.table| - 1]);
      }
    }
  }

  // One row added, sent in a batch, accepted, and marked.
  function Upload(w: World, n: string, s: State, p: Payload, r: Request): State {
    var s1 := Next(w, n, Next(w, n, s, Add(p)), Send);
    var rows := FirstPending(s1.table, BATCH);
    Next(w, n, Next(w, n, s1, Deliver(r)), Answer(rows))
  }

  lemma {:induction false} FirstPendingHasAll(t: seq<Row>, k: nat)
    requires PendingCount(t) <= k
    ensures forall x :: x in FirstPending(t, k) <==> Row(x, false) in t
  {
    if t != [] {
      assert forall r :: r in t <==> r == t[0] || r in t[1..];
      if t[0].synced {
        FirstPendingHasAll(t[1..], k);
      } else {
        FirstPendingHasAll(t[1..], k - 1);
        assert t[0] == Row(t[0].item, false);
      }
    }
  }

  lemma {:induction false} PendingAppend(t: seq<Row>, r: Row)
    ensures PendingCount(t + [r]) == PendingCount(t) + if r.synced then 0 else 1
  {
    if t == [] {
      assert [] + [r] == [r] && [r][1..] == [];
    } else {
      assert (t + [r])[1..] == t[1..] + [r];
      PendingAppend(t[1..], r);
    }
  }

  lemma NewRowIsSent(t: seq<Row>, p: Payload)
    requires PendingCount(t) < BATCH
    ensures Item(NextId(t), p) in FirstPending(Added(t, p), BATCH)
  {
    var r := Row(Item(NextId(t), p), false);
    PendingAppend(t, r);
    FirstPendingHasAll(Added(t, p), BATCH);
    assert Added(t, p)[|t|] == r;
  }

  lemma UploadIs(w: World, n: string, s: State, p: Payload, r: Request, rows: seq<Item>)
    requires rows == FirstPending(Added(s.table, p), BATCH) && rows != []
    requires w.parse(r.raw) == Batch(n, rows) && r.node == n && Post(w, s.server, r).0 == 200
    ensures Upload(w, n, s, p, r).table == Marked(Added(s.table, p), Ids(rows))
    ensures Upload(w, n, s, p, r).server.events == StoreAll(s.server.events, n, rows)
  {
  }

  // In every state where the next id was used before, a row with other content added now is sent,
  // accepted with status 200, marked synced, and not stored: its event is lost.
  lemma ReusedIdLosesEvent(w: World, n: string, s: State, p: Payload, r: Request, x: Item)
    requires Inv(w, n, s) && x == Item(NextId(s.table), p) && x.id in Used(s) && x !in s.added
    requires PendingCount(s.table) < BATCH
    requires w.parse(r.raw) == Batch(n, FirstPending(Added(s.table, p), BATCH)) && r.node == n
    requires Post(w, s.server, r).0 == 200
    ensures Row(x, true) in Upload(w, n, s, p, r).table && !Stored(Upload(w, n, s, p, r), n, x)
  {
    var t := Added(s.table, p);
    var rows := FirstPending(t, BATCH);
    NewRowIsSent(s.table, p);
    UploadIs(w, n, s, p, r, rows);
    MarkedLast(s.table, Row(x, false), Ids(rows));
    FreshExactly(w, n, s);
    StoreAllKeeps(s.server.events, n, rows);
    assert Item(x.id, s.server.events[(n, x.id)]) in s.added;
  }

  lemma MarkedLast(t: seq<Row>, r: Row, ids: set<int>)
    requires r.item.id in ids
    ensures Row(r.item, true) in Marked(t + [r], ids)
  {
    var m := Marked(t + [r], ids);
    assert m[|t|] == Row(r.item, true);
  }

  lemma OneRowTable(p: Payload)
    ensures Added([], p) == [Row(Item(1, p), false)]
    ensures FirstPending([Row(Item(1, p), false)], BATCH) == [Item(1, p)]
    ensures Marked([Row(Item(1, p), false)], {1}) == [Row(Item(1, p), true)]
    ensures Ids([Item(1, p)]) == {1}
    ensures forall cutoff :: p.ts < cutoff ==> Purged([Row(Item(1, p), true)], cutoff) == []
  {
    var t, u: seq<Row> := [Row(Item(1, p), false)], [Row(Item(1, p), true)];
    assert t[1..] == [] && u[1..] == [];
    assert FirstPending(t, BATCH) == [Item(1, p)] + FirstPending([], BATCH - 1);
    assert Item(1, p) in [Item(1, p)];
  }

  lemma FirstBatch(w: World, n: string, pub: string, p: Payload)
    ensures Next(w, n, Next(w, n, Next(w, n, Start(), Enroll(n, pub)), Add(p)), Send)
         == State([Row(Item(1, p), false)], Enrolled(w, Start().server, n, pub), {[Item(1, p)]}, {}, {Item(1, p)}, 1)
  {
    var s1 := Next(w, n, Start(), Enroll(n, pub));
    OneRowTable(p);
    var s2 := Next(w, n, s1, Add(p));
    assert s2 == State([Row(Item(1, p), false)], s1.server, {}, {}, {Item(1, p)}, 1);
  }

  lemma FirstBatchSent(w: World, n: string, pub: string, p: Payload) returns (s: State)
    ensures s == Next(w, n, Next(w, n, Next(w, n, Start(), Enroll(n, pub)), Add(p)), Send)
    ensures Inv(w, n, s)
  {
    var s1 := Next(w, n, Start(), Enroll(n, pub));
    StartInv(w, n);
    RegistryKeeps(w, n, Start(), Enroll(n, pub));
    AddKeeps(w, n, s1, p);
    s := Next(w, n, Next(w, n, s1, Add(p)), Send);
    SendKeeps(w, n, Next(w, n, s1, Add(p)));
  }

  lemma OnlyRowGone(w: World, n: string, s: State, p: Payload, cutoff: int) returns (s': State)
    requires Inv(w, n, s) && s.table == [Row(Item(1, p), false)] && [Item(1, p)] in s.answered && p.ts < cutoff
    ensures s' == Next(w, n, Next(w, n, s, Answer([Item(1, p)])), Maintain(cutoff))
    ensures Inv(w, n, s') && s'.table == [] && s'.added == s.added
  {
    var s1 := OnlyRowMarked(w, n, s, p);
    MaintainKeeps(w, n, s1, cutoff);
    s' := Next(w, n, s1, Maintain(cutoff));
    OneRowTable(p);
  }

  lemma OnlyRowMarked(w: World, n: string, s: State, p: Payload) returns (s': State)
    requires Inv(w, n, s) && s.table == [Row(Item(1, p), false)] && [Item(1, p)] in s.answered
    ensures s' == Next(w, n, s, Answer([Item(1, p)]))
    ensures Inv(w, n, s') && s'.table == [Row(Item(1, p), true)] && s'.added == s.added
  {
    AnswerKeeps(w, n, s, [Item(1, p)]);
    s' := Next(w, n, s, Answer([Item(1, p)]));
    OneRowTable(p);
  }

  lemma FirstBatchStored(w: World, n: string, pub: string, p: Payload, r: Request) returns (s: State)
    requires w.nodeIdOf(pub) == Some(n)
    requires r.node == n && w.parse(r.raw) == Batch(n, [Item(1, p)]) && Unforged(w, n, {[Item(1, p)]}, r)
    requires Post(w, Enrolled(w, Start().server, n, pub), r).0 == 200
    ensures s == Next(w, n, Next(w, n, Next(w, n, Next(w, n, Start(), Enroll(n, pub)), Add(p)), Send), Deliver(r))
    ensures Inv(w, n, s) && s.table == [Row(Item(1, p), false)] && [Item(1, p)] in s.answered && Item(1, p) in s.added
  {
    var s3 := FirstBatchSent(w, n, pub, p);
    FirstBatch(w, n, pub, p);
    s := FirstBatchAccepted(w, n, s3, [Item(1, p)], r);
  }

  lemma FirstBatchAccepted(w: World, n: string, s3: State, rows: seq<Item>, r: Request) returns (s: State)
    requires Inv(w, n, s3) && s3.sent == {rows} && Unforged(w, n, s3.sent, r)
    requires r.node == n && w.parse(r.raw) == Batch(n, rows) && Post(w, s3.server, r).0 == 200
    ensures s == Next(w, n, s3, Deliver(r)) && Inv(w, n, s)
    ensures s.table == s3.table && rows in s.answered && s.added == s3.added
  {
    DeliverKeeps(w, n, s3, r);
    s := Next(w, n, s3, Deliver(r));
  }

  // Such states are reached: one event is uploaded, and maintenance then deletes its old row.
  lemma ReuseIsReachable(w: World, n: string, pub: string, p: Payload, r: Request, cutoff: int) returns (s: State)
    requires w.nodeIdOf(pub) == Some(n) && p.ts < cutoff
    requires r.node == n && w.parse(r.raw) == Batch(n, [Item(1, p)]) && Unforged(w, n, {[Item(1, p)]}, r)
    requires Post(w, Enrolled(w, Start().server, n, pub), r).0 == 200
    ensures s == After(w, n, [Enroll(n, pub), Add(p), Send, Deliver(r), Answer([Item(1, p)]), Maintain(cutoff)])
    ensures Inv(w, n, s) && s.table == [] && NextId(s.table) in Used(s)
  {
    var s4 := FirstBatchStored(w, n, pub, p, r);
    s := OnlyRowGone(w, n, s4, p, cutoff);
    assert Item(1, p) in s.added;
    SixSteps(w, n, Enroll(n, pub), Add(p), Send, Deliver(r), Answer([Item(1, p)]), Maintain(cutoff));
  }

  lemma SixSteps(w: World, n: string, a: Step, b: Step, c: Step, d: Step, e: Step, f: Step)
    ensures After(w, n, [a, b, c, d, e, f]) ==
      Next(w, n, Next(w, n, Next(w, n, Next(w, n, Next(w, n, Next(w, n, Start(), a), b), c), d), e), f)
  {
    assert [a, b, c, d, e, f][..5] == [a, b, c, d, e];
    assert [a, b, c, d, e][..4] == [a, b, c, d];
    assert [a, b, c, d][..3] == [a, b, c];
    assert [a, b, c][..2] == [a, b];
    assert [a, b][..1] == [a];
    assert [a][..0] == [];
    assert After(w, n, [a]) == Next(w, n, After(w, n, []), a);
    assert After(w, n, [a, b]) == Next(w, n, After(w, n, [a]), b);
    assert After(w, n, [a, b, c]) == Next(w, n, After(w, n, [a, b]), c);
    assert After(w, n, [a, b, c, d]) == Next(w, n, After(w, n, [a, b, c]), d);
    assert After(w, n, [a, b, c, d, e]) == Next(w, n, After(w, n, [a, b, c, d]), e);
  }

  // ---------- the agent alone ----------

  // A sync round is one call: it has used up its answer before anything else happens to the table.
  datatype AgentStep = Record(payload: Payload) | SyncRound(accepted: bool) | Clean(cutoff: int)

  function Synced(t: seq<Row>, accepted: bool): seq<Row> {
    if accepted then Marked(t, Ids(FirstPending(t, BATCH))) else t
  }

  function AgentNext(t: seq<Row>, step: AgentStep): seq<Row> {
    match step
    case Record(p) => Added(t, p)
    case SyncRound(accepted) => Synced(t, accepted)
    case Clean(cutoff) => Purged(t, cutoff)
  }

  function AgentAfter(t: seq<Row>, steps: seq<AgentStep>): seq<Row> {
    if steps == [] then t else AgentNext(AgentAfter(t, steps[..|steps| - 1]), steps[|steps| - 1])
  }

  lemma SyncedInOrder(t: seq<Row>)
    requires Ascending(t) && SyncedFirst(t)
    ensures Ascending(Synced(t, true)) && SyncedFirst(Synced(t, true))
  {
    var rows := FirstPending(t, BATCH);
    FirstPendingCovers(t, BATCH);
    FirstPendingIn(t, BATCH);
    forall x, r | x in rows && r in t && x.id == r.item.id ensures x == r.item {
      SameIdSameRow(t, Row(x, false), r);
    }
    MarkedSyncedFirst(t, rows);
    MarkedAscending(t, Ids(rows));
  }

  lemma SameIdSameRow(t: seq<Row>, q: Row, r: Row)
    requires Ascending(t) && q in t && r in t && q.item.id == r.item.id
    ensures q == r
  {
    var i :| 0 <= i < |t| && t[i] == q;
    var j :| 0 <= j < |t| && t[j] == r;
  }

  lemma AgentStepKeepsOrder(t: seq<Row>, step: AgentStep)
    requires Ascending(t) && SyncedFirst(t)
    ensures Ascending(AgentNext(t, step)) && SyncedFirst(AgentNext(t, step))
  {
    match step
    case Record(p) => AddedAscending(t, p);
    case SyncRound(accepted) => SyncedInOrder(t);
    case Clean(cutoff) =>
      PurgedAscending(t, cutoff);
      PurgedSyncedFirst(t, cutoff);
  }

  lemma {:induction false} AgentKeepsOrder(t: seq<Row>, steps: seq<AgentStep>)
    requires Ascending(t) && SyncedFirst(t)
    ensures Ascending(AgentAfter(t, steps)) && SyncedFirst(AgentAfter(t, steps))
  {
    if steps != [] {
      AgentKeepsOrder(t, steps[..|steps| - 1]);
      AgentStepKeepsOrder(AgentAfter(t, steps[..|steps| - 1]), steps[|steps| - 1]);
    }
  }

  // At every reachable state of the agent the rows ascend by id and all synced rows precede all
  // pending ones, whether or not ids are given twice.
  lemma AgentInOrder(steps: seq<AgentStep>)
    ensures Ascending(AgentAfter([], steps)) && SyncedFirst(AgentAfter([], steps))
  {
    AgentKeepsOrder([], steps);
  }

  // The same round as three steps of the protocol.
  lemma RoundOfProtocol(w: World, n: string, s: State, r: Request)
    requires FirstPending(s.table, BATCH) != []
    requires w.parse(r.raw) == Batch(n, FirstPending(s.table, BATCH)) && r.node == n && Post(w, s.server, r).0 == 200
    ensures Next(w, n, Next(w, n, Next(w, n, s, Send), Deliver(r)), Answer(FirstPending(s.table, BATCH))).table
         == Synced(s.table, true)
  {
  }

  // ---------- draining ----------

  function AcceptedRounds(steps: seq<AgentStep>): nat {
    if steps == [] then 0
    else AcceptedRounds(steps[..|steps| - 1]) + if steps[|steps| - 1] == SyncRound(true) then 1 else 0
  }

  ghost predicate NoNewEvents(steps: seq<AgentStep>) {
    forall i :: 0 <= i < |steps| ==> !steps[i].Record?
  }

  lemma {:induction false} PurgedPending(t: seq<Row>, cutoff: int)
    ensures PendingCount(Purged(t, cutoff)) == PendingCount(t)
  {
    if t != [] {
      PurgedPending(t[1..], cutoff);
      var rest := Purged(t[1..], cutoff);
      assert ([t[0]] + rest)[1..] == rest && [] + rest == rest;
    }
  }

  lemma {:induction false} MarkedOutside(t: seq<Row>, ids: set<int>)
    requires forall r :: r in t ==> r.item.id !in ids
    ensures Marked(t, ids) == t
  {
    if t != [] {
      assert t[0] in t && forall r :: r in t[1..] ==> r in t;
      MarkedOutside(t[1..], ids);
    }
  }

  lemma {:induction false} MarkedOneMore(t: seq<Row>, id: int, ids: set<int>)
    requires forall r :: r in t ==> r.item.id != id
    ensures Marked(t, ids + {id}) == Marked(t, ids)
  {
    if t != [] {
      assert t[0] in t && forall r :: r in t[1..] ==> r in t;
      MarkedOneMore(t[1..], id, ids);
    }
  }

  lemma {:induction false} MarkingFirst(t: seq<Row>, k: nat)
    requires Ascending(t)
    ensures PendingCount(Marked(t, Ids(FirstPending(t, k)))) == if PendingCount(t) > k then PendingCount(t) - k else 0
  {
    if t == [] {
    } else if k == 0 {
      MarkedOutside(t, Ids([]));
    } else {
      AscendingTail(t);
      var rest := FirstPending(t[1..], if t[0].synced then k else k - 1);
      MarkingFirst(t[1..], if t[0].synced then k else k - 1);
      FirstPendingIn(t[1..], if t[0].synced then k else k - 1);
      MarkedOneMore(t[1..], t[0].item.id, Ids(rest));
      if !t[0].synced {
        assert Ids([t[0].item] + rest) == Ids(rest) + {t[0].item.id};
      }
    }
  }

  lemma {:induction false} MarkedAscending(t: seq<Row>, ids: set<int>)
    requires Ascending(t)
    ensures Ascending(Marked(t, ids))
  {
  }

  // What is left of `pending` rows after `k` batches.
  function LeftOf(pending: nat, k: nat): nat {
    if pending > BATCH * k then pending - BATCH * k else 0
  }

  lemma {:induction false} DrainsFrom(t: seq<Row>, steps: seq<AgentStep>)
    requires Ascending(t) && SyncedFirst(t) && NoNewEvents(steps)
    ensures PendingCount(AgentAfter(t, steps)) == LeftOf(PendingCount(t), AcceptedRounds(steps))
  {
    if steps != [] {
      var front, last := steps[..|steps| - 1], steps[|steps| - 1];
      DrainsFrom(t, front);
      AgentKeepsOrder(t, front);
      assert last == steps[|steps| - 1] && !last.Record?;
      DrainStep(AgentAfter(t, front), last);
    }
  }

  lemma DrainStep(t: seq<Row>, step: AgentStep)
    requires Ascending(t) && !step.Record?
    ensures PendingCount(AgentNext(t, step)) == LeftOf(PendingCount(t), if step == SyncRound(true) then 1 else 0)
  {
    if step.Clean? {
      PurgedPending(t, step.cutoff);
    } else if step.accepted {
      MarkingFirst(t, BATCH);
    }
  }

  // From every reachable state, with no new events, what is left of n pending rows depends on the
  // number of accepted rounds alone, however many are refused or fail and whatever maintenance
  // does meanwhile: nothing exactly from ceil(n / 100) accepted rounds on.
  lemma Drains(history: seq<AgentStep>, steps: seq<AgentStep>)
    requires NoNewEvents(steps)
    ensures var n := PendingCount(AgentAfter([], history));
      var left := PendingCount(AgentAfter(AgentAfter([], history), steps));
      left == LeftOf(n, AcceptedRounds(steps)) && (left == 0 <==> AcceptedRounds(steps) >= (n + BATCH - 1) / BATCH)
  {
    AgentInOrder(history);
    DrainsFrom(AgentAfter([], history), steps);
  }

  // ---------- a batch that is never accepted ----------

  // A well-formed batch of the node's own, signed under the key it is registered with.
  ghost predicate OwnBatch(w: World, s: Server, r: Request, n: string, rows: seq<Item>) {
    && r.node == n && n in s.nodes && w.verify(s.nodes[n], r.raw, r.sig)
    && w.parse(r.raw) == Batch(n, rows) && EventsSigned(w, s.nodes[n], n, rows)
  }

  // Such a batch is accepted if and only if its body is not over the limit; otherwise nothing changes.
  lemma OwnBatchAccepted(w: World, s: Server, r: Request, n: string, rows: seq<Item>)
    requires OwnBatch(w, s, r, n, rows) && r.length.Some? && r.length.value >= 0
    ensures Post(w, s, r).0 == 200 <==> r.length.value <= MAX_BODY
    ensures r.length.value > MAX_BODY ==> Post(w, s, r) == (413, s)
  {
  }

  lemma {:induction false} FullBatchAppend(t: seq<Row>, r: Row, k: nat)
    requires |FirstPending(t, k)| == k
    ensures FirstPending(t + [r], k) == FirstPending(t, k)
  {
    if k > 0 {
      assert (t + [r])[1..] == t[1..] + [r];
      FullBatchAppend(t[1..], r, if t[0].synced then k else k - 1);
    }
  }

  lemma {:induction false} FirstPendingOfPurged(t: seq<Row>, cutoff: int, k: nat)
    ensures FirstPending(Purged(t, cutoff), k) == FirstPending(t, k)
  {
    if t != [] && k > 0 {
      FirstPendingOfPurged(t[1..], cutoff, if t[0].synced then k else k - 1);
      var rest := Purged(t[1..], cutoff);
      assert ([t[0]] + rest)[1..] == rest && [] + rest == rest;
    }
  }

  // Every round that was accepted sent a batch whose body is not over the limit.
  ghost predicate WithinLimit(length: seq<Item> -> int, t: seq<Row>, steps: seq<AgentStep>) {
    forall i :: 0 <= i < |steps| && steps[i] == SyncRound(true) ==>
      length(FirstPending(AgentAfter(t, steps[..i]), BATCH)) <= MAX_BODY
  }

  // A full batch whose body is over the limit blocks the queue for good: whatever is added and cleaned,
  // every round sends the same batch again, none is ever accepted, and nothing pending is marked.
  lemma {:induction false} OversizeBatchBlocks(length: seq<Item> -> int, t: seq<Row>, steps: seq<AgentStep>)
    requires |FirstPending(t, BATCH)| == BATCH && length(FirstPending(t, BATCH)) > MAX_BODY
    requires WithinLimit(length, t, steps)
    ensures FirstPending(AgentAfter(t, steps), BATCH) == FirstPending(t, BATCH)
    ensures AcceptedRounds(steps) == 0 && PendingCount(AgentAfter(t, steps)) >= PendingCount(t)
  {
    if steps != [] {
      var n := |steps| - 1;
      var front := steps[..n];
      assert forall i :: 0 <= i < n ==> front[..i] == steps[..i] && front[i] == steps[i];
      OversizeBatchBlocks(length, t, front);
      assert steps[..n] == front && steps[n] != SyncRound(true);
      BatchStays(AgentAfter(t, front), steps[n], BATCH);
    }
  }

  lemma BatchStays(t: seq<Row>, step: AgentStep, k: nat)
    requires |FirstPending(t, k)| == k && step != SyncRound(true)
    ensures FirstPending(AgentNext(t, step), k) == FirstPending(t, k)
    ensures PendingCount(AgentNext(t, step)) >= PendingCount(t)
  {
    match step
    case Record(p) =>
      FullBatchAppend(t, Row(Item(NextId(t), p), false), k);
      PendingAppend(t, Row(Item(NextId(t), p), false));
    case SyncRound(_) =>
    case Clean(cutoff) =>
      FirstPendingOfPurged(t, cutoff, k);
      PurgedPending(t, cutoff);
  }

  // ---------- the two programs ----------

  class Agent {
    var events: seq<Row>

    // Rows ascend by id, and what is marked comes first.
    ghost predicate Ordered()
      reads this
    {
      Ascending(events) && SyncedFirst(events)
    }

    constructor ()
      ensures events == [] && Ordered()
    {
      events := [];
    }

    method AddEvent(ts: int, kind: string, msg: string, sig: string)
      requires Ordered()
      modifies this
      ensures events == AgentNext(old(events), Record(Payload(ts, kind, msg, sig))) && Ordered()
      ensures var id := if old(events) == [] then 1 else old(events)[|old(events)| - 1].item.id + 1;
        events == old(events) + [Row(Item(id, Payload(ts, kind, msg, sig)), false)]
    {
      AgentStepKeepsOrder(events, Record(Payload(ts, kind, msg, sig)));
      events := events + [Row(Item(NextId(events), Payload(ts, kind, msg, sig)), false)];
    }

    method Pending() returns (pending: nat, total: nat)
      ensures pending == PendingCount(events) && total == |events|
      ensures pending == |set i | 0 <= i < |events| && !events[i].synced|
    {
      pending, total := 0, |events|;
      var i := |events|;
      while i > 0
        invariant 0 <= i <= |events| && pending == PendingCount(events[i..])
      {
        i := i - 1;
        assert events[i..][1..] == events[i + 1..];
        if !events[i].synced {
          pending := pending + 1;
        }
      }
      assert events[0..] == events;
      PendingIsCount(events);
    }

    // The rows a sync round sends.
    method Snapshot() returns (rows: seq<Item>)
      ensures rows == FirstPending(events, BATCH)
      ensures BatchOf(events, rows)
    {
      BatchExactly(events);
      rows := [];
      var i := 0;
      assert events[0..] == events;
      while i < |events| && |rows| < BATCH
        invariant 0 <= i <= |events| && |rows| <= BATCH
        invariant FirstPending(events, BATCH) == rows + FirstPending(events[i..], BATCH - |rows|)
      {
        PendingTurn(events, rows, i, BATCH);
        if !events[i].synced {
          rows := rows + [events[i].item];
        }
        i := i + 1;
      }
    }

    // What a sync round does with the answer; None when the receiver was not reached.
    method Finish(rows: seq<Item>, status: Option<int>)
      modifies this
      ensures events == if status == Some(200) then Marked(old(events), Ids(rows)) else old(events)
      ensures status != Some(200) ==> events == old(events)
      ensures status == Some(200) ==> |events| == |old(events)| && forall i :: 0 <= i < |events| ==>
        && events[i].item == old(events)[i].item
        && (events[i].synced <==> old(events)[i].synced || exists x :: x in rows && x.id == events[i].item.id)
    {
      if status == Some(200) {
        ghost var before := events;
        var i := 0;
        while i < |rows|
          invariant 0 <= i <= |rows|
          invariant events == Marked(before, Ids(rows[..i]))
        {
          MarkedTwice(before, Ids(rows[..i]), {rows[i].id});
          assert rows[..i + 1] == rows[..i] + [rows[i]];
          assert Ids(rows[..i + 1]) == Ids(rows[..i]) + {rows[i].id};
          events := Marked(events, {rows[i].id});
          i := i + 1;
        }
        assert rows[..i] == rows;
      }
    }

    // One sync round; None when there is no receiver to reach, or it was not reached.
    method SyncOnce(status: Option<int>) returns (marked: nat)
      requires Ordered()
      modifies this
      ensures events == AgentNext(old(events), SyncRound(status == Some(200))) && Ordered()
      ensures marked == if status == Some(200) then |FirstPending(old(events), BATCH)| else 0
    {
      AgentStepKeepsOrder(events, SyncRound(status == Some(200)));
      marked := 0;
      var rows := Snapshot();
      if rows == [] {
        EmptyRound(events, rows);
        return;
      }
      Finish(rows, status);
      if status == Some(200) {
        marked := |rows|;
      }
    }

    method Maintenance(cutoff: int) returns (deleted: nat)
      requires Ordered()
      modifies this
      ensures events == AgentNext(old(events), Clean(cutoff)) && deleted == |old(events)| - |events| && Ordered()
      ensures forall r :: r in events <==> r in old(events) && !(r.synced && r.item.payload.ts < cutoff)
    {
      PurgedKeeps(events, cutoff);
      AgentStepKeepsOrder(events, Clean(cutoff));
      PurgedShorter(events, cutoff);
      deleted := |events| - |Purged(events, cutoff)|;
      events := Purged(events, cutoff);
    }
  }

  // One turn of the selection of the first `k` pending rows.
  lemma PendingTurn(t: seq<Row>, rows: seq<Item>, i: nat, k: nat)
    requires i < |t| && |rows| < k && FirstPending(t, k) == rows + FirstPending(t[i..], k - |rows|)
    ensures t[i].synced ==> FirstPending(t, k) == rows + FirstPending(t[i + 1..], k - |rows|)
    ensures !t[i].synced ==>
      FirstPending(t, k) == (rows + [t[i].item]) + FirstPending(t[i + 1..], k - |rows + [t[i].item]|)
  {
    var rest := t[i..];
    assert rest[1..] == t[i + 1..] && rest[0] == t[i];
    if !t[i].synced {
      var more := FirstPending(t[i + 1..], k - |rows| - 1);
      assert rows + ([t[i].item] + more) == (rows + [t[i].item]) + more;
    }
  }

  lemma EmptyRound(t: seq<Row>, rows: seq<Item>)
    requires rows == []
    ensures Marked(t, Ids(rows)) == t
  {
    MarkedTwice(t, {}, {});
    assert Ids(rows) == {};
  }

  lemma MarkedTwice(t: seq<Row>, a: set<int>, b: set<int>)
    ensures Marked(Marked(t, a), b) == Marked(t, a + b)
    ensures t == Marked(t, {})
  {
    assert Marked(t, {}) == t;
    assert Marked(Marked(t, a), b) == Marked(t, a + b);
  }

  lemma {:induction false} PurgedShorter(t: seq<Row>, cutoff: int)
    ensures |Purged(t, cutoff)| <= |t|
  {
    if t != [] {
      PurgedShorter(t[1..], cutoff);
    }
  }

  class Receiver {
    const w: World
    var server: Server

    constructor (w: World)
      ensures this.w == w && server == Server(map[], map[])
    {
      this.w := w;
      server := Server(map[], map[]);
    }

    method EnrollNode(node: string, pub: string) returns (ok: bool)
      modifies this
      ensures server == Enrolled(w, old(server), node, pub)
      ensures ok <==> w.nodeIdOf(pub) == Some(node)
      ensures server.events == old(server).events
      ensures server.nodes == if ok then old(server).nodes[node := pub] else old(server).nodes
    {
      ok := w.nodeIdOf(pub) == Some(node);
      if ok {
        server := server.(nodes := server.nodes[node := pub]);
      }
    }

    method RevokeNode(node: string) returns (ok: bool)
      modifies this
      ensures server == Revoked(old(server), node) && ok == (node in old(server).nodes)
      ensures server.events == old(server).events && server.nodes == old(server).nodes - {node}
    {
      ok := node in server.nodes;
      if ok {
        server := server.(nodes := server.nodes - {node});
      }
    }

    // The handler of one POST: the status, and how many rows were new.
    method DoPost(r: Request) returns (code: int, stored: nat)
      modifies this
      ensures (code, server) == Post(w, old(server), r)
      ensures stored == |server.events| - |old(server).events|
      ensures code == 200 <==> Welcome(w, old(server), r)
      ensures code != 200 ==> server == old(server) && stored == 0
      ensures code == 413 <==> r.length.Some? && !(0 <= r.length.value <= 1_000_000)
      ensures code == 200 ==>
        && server.nodes == old(server).nodes
        && (forall k :: k in old(server).events ==> k in server.events && server.events[k] == old(server).events[k])
        && (forall x :: x in w.parse(r.raw).rows ==> (r.node, x.id) in server.events)
        && (forall k :: k in server.events && k !in old(server).events ==>
              k.0 == r.node && Item(k.1, server.events[k]) in w.parse(r.raw).rows)
    {
      PostExactly(w, server, r);
      if Post(w, server, r).0 == 200 {
        StoreAllKeeps(server.events, r.node, w.parse(r.raw).rows);
      }
      stored := 0;
      if r.length.None? {
        return 400, 0;
      }
      if r.length.value < 0 || r.length.value > MAX_BODY {
        return 413, 0;
      }
      if r.node !in server.nodes {
        return 401, 0;
      }
      var pub := server.nodes[r.node];
      if !w.verify(pub, r.raw, r.sig) {
        return 401, 0;
      }
      var body := w.parse(r.raw);
      if body.Malformed? || body.node != r.node || !EventsSigned(w, pub, r.node, body.rows) {
        return 400, 0;
      }
      var rows, i := body.rows, 0;
      ghost var before := server.events;
      while i < |rows|
        invariant 0 <= i <= |rows| && server.nodes == old(server).nodes
        invariant StoreAll(before, r.node, rows) == StoreAll(server.events, r.node, rows[i..])
        invariant |server.events| == |before| + stored
      {
        var key := (r.node, rows[i].id);
        assert rows[i..][1..] == rows[i + 1..];
        if key !in server.events {
          server := server.(events := server.events[key := rows[i].payload]);
          stored := stored + 1;
        }
        i := i + 1;
      }
      code := 200;
    }
  }
}
