/** Filling a PostgreSQL database, as the sequence of images its commits leave. Each table's new rows go through a
    stream with a transaction of its own; received blocks and the fill status are committed apart from them. */
module PgHistory {
  import opened Bytes
  import opened Store
  import opened KeyCodec
  import H = History

  /** A row, with its table's key fields taken together. */
  datatype Row = Row(table: Bytes, block: u32, key: Bytes, present: bool, text: Bytes)

  /** What has been committed. */
  datatype Image = Image(rows: set<Row>, received: map<u32, H.Id>, status: H.Status)

  /** A table's rows that are not committed yet. */
  datatype Stream = Stream(table: Bytes, rows: seq<Row>)

  /** The images after each commit, the open streams in the order of their names, and the fields of fpg_session. */
  datatype AnySession = Session(log: seq<Image>, streams: seq<Stream>, st: H.Status, alive: bool)

  type Session = s: AnySession | s.log != [] witness Session([Image({}, map[], H.EMPTY)], [], H.EMPTY, true)

  ghost function Now(s: Session): Image
  {
    s.log[|s.log| - 1]
  }

  function SetOf(rows: seq<Row>): set<Row>
  {
    set r | r in rows
  }

  /** All rows in streams. */
  function Pending(streams: seq<Stream>): set<Row>
  {
    if streams == [] then {} else SetOf(streams[0].rows) + Pending(streams[1..])
  }

  // ---------- streams ----------

  /** write_stream: table_streams is a map by name. */
  function AddTo(streams: seq<Stream>, row: Row): seq<Stream>
  {
    if streams == [] then [Stream(row.table, [row])]
    else if streams[0].table == row.table then [streams[0].(rows := streams[0].rows + [row])] + streams[1..]
    else if Less(row.table, streams[0].table) then [Stream(row.table, [row])] + streams
    else [streams[0]] + AddTo(streams[1..], row)
  }

  function AddAll(streams: seq<Stream>, rows: seq<Row>): seq<Stream>
  {
    if rows == [] then streams else AddTo(AddAll(streams, rows[..|rows| - 1]), rows[|rows| - 1])
  }

  /** The images as one stream after the other is committed. */
  function FlushLog(im: Image, streams: seq<Stream>): seq<Image>
    decreases |streams|
  {
    if streams == [] then [] else
      var a := im.(rows := im.rows + SetOf(streams[0].rows));
      [a] + FlushLog(a, streams[1..])
  }

  ghost function Flush(s: Session): Session
  {
    s.(log := s.log + FlushLog(Now(s), s.streams), streams := [])
  }

  ghost function Commit(s: Session, im: Image): Session
  {
    s.(log := s.log + [im])
  }

  /** close_streams: commit the streams, and only then the status. */
  ghost function Close(s: Session): Session
  {
    if s.streams == [] then s else
      var f := Flush(s);
      Commit(f, Now(f).(status := H.Clamp(s.st)))
  }

  // ---------- truncating and trimming ----------

  function Below(rows: set<Row>, block: u32): set<Row>
  {
    set r | r in rows && r.block < block
  }

  function ReceivedBelow(received: map<u32, H.Id>, block: u32): map<u32, H.Id>
  {
    map b | b in received && b < block :: received[b]
  }

  function Cut(im: Image, block: u32): Image
  {
    im.(rows := Below(im.rows, block), received := ReceivedBelow(im.received, block))
  }

  /** What truncate leaves in the session: the head is the block before, if the deletions have left it. */
  function CutStatus(im: Image, st: H.Status, block: u32): H.Status
  {
    var left, b := ReceivedBelow(im.received, block), H.Before(block);
    var head := if b in left then b else 0;
    st.(head := head, headId := if b in left then left[b] else H.ZERO,
        first := if st.first < head then st.first else head)
  }

  /** received(get_status_result_v0): load the status and forget what lies beyond it. The status is not written. */
  ghost function Open(im: Image): Session
  {
    var block := H.After(im.status.head);
    Session([im, Cut(im, block)], [], CutStatus(im, im.status, block), true)
  }

  /** Tables trimmed by block alone. */
  const SIMPLE: set<Bytes> := {BLOCK_INFO, TRANSACTION_TRACE}
  const BLOCK_INFO: Bytes := Ascii("block_info")
  const TRANSACTION_TRACE: Bytes := Ascii("transaction_trace")

  function Ascii(s: string): Bytes
    requires forall i :: 0 <= i < |s| ==> s[i] < 128 as char
  {
    seq(|s|, i requires 0 <= i < |s| => s[i] as int)
  }

  predicate SameKey(r: Row, t: Row) { r.table == t.table && r.key == t.key }

  /** The trim removes r: its block is in range, or a later row of its key is. */
  predicate Trims(rows: set<Row>, prev: u32, irrev: u32, r: Row)
  {
    if r.table in SIMPLE then prev <= r.block < irrev
    else exists t :: t in rows && SameKey(r, t) && prev < t.block <= irrev && r.block < t.block
  }

  /** The generated function trim_history. */
  function TrimHistory(rows: set<Row>, prev: u32, irrev: u32): set<Row>
  {
    set r | r in rows && !Trims(rows, prev, irrev, r)
  }

  function TrimReceived(received: map<u32, H.Id>, prev: u32, irrev: u32): map<u32, H.Id>
  {
    map b | b in received && !(prev <= b < irrev) :: received[b]
  }

  ghost function Trim(s: Session): Session
  {
    var end := if s.st.head < s.st.irreversible then s.st.head else s.st.irreversible;
    if s.st.first >= end then s else
      var im := Now(s);
      Commit(s,
        im.(rows := TrimHistory(im.rows, s.st.first, end), received := TrimReceived(im.received, s.st.first, end)))
        .(st := s.st.(first := end))
  }

  // ---------- blocks ----------

  datatype Result = Result(pos: H.Position, prev: Option<H.Position>, irreversible: H.Position, rows: seq<Row>,
          large: bool)

  function Dead(s: Session): Session
  {
    s.(streams := [], alive := false)
  }

  predicate Links(st: H.Status, r: Result)
  {
    st.headId == H.ZERO || (r.prev.Some? && r.prev.value.id == st.headId)
  }

  predicate LongAgo(r: Result)
  {
    (r.pos.num + 4) % 0x1_0000_0000 < r.irreversible.num
  }

  /** Rows may stay in the streams for now. */
  predicate IsBulk(s: Session, r: Result)
  {
    (LongAgo(r) || r.large) && r.pos.num > s.st.head
  }

  predicate MustClose(s: Session, r: Result)
  {
    !IsBulk(s, r) || (!LongAgo(r) && r.large) || r.pos.num % 200 == 0
  }

  ghost function Closed(s: Session, r: Result): Session
  {
    if MustClose(s, r) then Close(s) else s
  }

  /** What comes before the block's own transaction: closing streams, and perhaps trimming. */
  ghost function Prepare(trim: bool, s: Session, r: Result): Session
  {
    var c := Closed(s, r);
    if trim && c.streams == [] then Trim(c) else c
  }

  /** The end of the block's transaction: its received_block row, and the status unless the rows stay in the streams. */
  ghost function Finish(a: Session, r: Result, bulk: bool, forks: bool): Session
  {
    var b := if !bulk && !forks then Flush(a) else a;
    var im := if forks then Cut(Now(b), r.pos.num) else Now(b);
    Commit(b, im.(received := im.received[r.pos.num := r.pos.id], status := if bulk then im.status else H.Clamp(a.st)))
  }

  function Advanced(st: H.Status, r: Result): H.Status
  {
    H.Status(r.pos.num, r.pos.id, r.irreversible.num, r.irreversible.id, if st.first == 0 then r.pos.num else st.first)
  }

  /** The block's transaction. */
  ghost function AddBlock(s: Session, r: Result, bulk: bool): Session
  {
    var forks := r.pos.num <= s.st.head;
    var st0 := if forks then CutStatus(Now(s), s.st, r.pos.num) else s.st;
    if !Links(st0, r) then Dead(s.(st := st0)) else
      Finish(s.(streams := AddAll(s.streams, r.rows), st := Advanced(st0, r)), r, bulk, forks)
  }

  /** process_blocks_result. */
  ghost function Process(cfg: H.Settings, s: Session, r: Result): Session
  {
    if !s.alive then s
    else if cfg.stopBefore != 0 && r.pos.num >= cfg.stopBefore then Dead(Close(s))
    else
      var s1 := AddBlock(Prepare(cfg.trim, s, r), r, IsBulk(s, r));
      if s1.alive && !LongAgo(r) && r.large then Close(s1) else s1
  }

  ghost function Run(cfg: H.Settings, s: Session, rs: seq<Result>): Session
  {
    if rs == [] then s else Process(cfg, Run(cfg, s, rs[..|rs| - 1]), rs[|rs| - 1])
  }

  // ---------- what a trim leaves ----------

  /** A trim leaves a row of a keyed table exactly if no changed row of its key is later, and a row of a table that is
      trimmed by block alone exactly if its block is not in the range. */
  lemma TrimIsExact(rows: set<Row>, prev: u32, irrev: u32)
    ensures var left := TrimHistory(rows, prev, irrev);
      && left <= rows
      && (forall r :: r in rows && r.table in SIMPLE ==> (r in left <==> r.block < prev || irrev <= r.block))
      && forall r :: r in rows && r.table !in SIMPLE ==>
           (r in left <==> forall t :: t in rows && SameKey(r, t) && prev < t.block <= irrev ==> t.block <= r.block)
  {
  }

  /** Up to a block, the rows of each key are of one block. */
  ghost predicate AtMostOne(rows: set<Row>, first: u32)
  {
    forall r, t :: r in rows && t in rows && SameKey(r, t) && r.table !in SIMPLE && r.block <= first && t.block <= first
      ==> r.block == t.block
  }

  /** So if each key has rows of one block up to the trim's start, it has rows of one block up to its end. */
  lemma TrimLeavesOne(rows: set<Row>, prev: u32, irrev: u32)
    requires AtMostOne(rows, prev)
    ensures AtMostOne(TrimHistory(rows, prev, irrev), irrev)
  {
    hide TrimHistory;
    TrimIsExact(rows, prev, irrev);
    var left := TrimHistory(rows, prev, irrev);
    forall r, t | r in left && t in left && SameKey(r, t) && r.table !in SIMPLE && r.block <= irrev && t.block <= irrev
      ensures r.block == t.block
    {
      assert SameKey(t, r);
      if prev < r.block { assert r.block <= t.block; }
      if prev < t.block { assert t.block <= r.block; }
    }
  }

  // ---------- trims compose ----------

  /** Trimming up to b, then adding rows after b, then trimming from b to c is one trim up to c after adding them. */
  lemma TrimsCompose(rows: set<Row>, more: set<Row>, a: u32, b: u32, c: u32)
    requires a <= b <= c && forall r :: r in more ==> b < r.block
    ensures TrimHistory(TrimHistory(rows, a, b) + more, b, c) == TrimHistory(rows + more, a, c)
  {
    var once := TrimHistory(rows, a, b) + more;
    forall r | r in rows + more
      ensures r in TrimHistory(once, b, c) <==> !Trims(rows + more, a, c, r)
    {
      TrimsInParts(rows, more, a, b, c, r);
    }
  }

  lemma TrimsInParts(rows: set<Row>, more: set<Row>, a: u32, b: u32, c: u32, r: Row)
    requires a <= b <= c && (forall x :: x in more ==> b < x.block) && r in rows + more
    ensures var once := TrimHistory(rows, a, b) + more;
      (r in once && !Trims(once, b, c, r)) <==> !Trims(rows + more, a, c, r)
  {
    var once := TrimHistory(rows, a, b) + more;
    if r.table !in SIMPLE {
      if t :| t in rows + more && SameKey(r, t) && a < t.block <= c && r.block < t.block {
        if t.block <= b {
          assert t in rows && Trims(rows, a, b, r);
        } else {
          LateRowsStay(rows, a, b, t);
          assert t in once;
        }
      } else {
        assert !Trims(rows, a, b, r);
      }
    }
  }

  lemma LateRowsStay(rows: set<Row>, a: u32, b: u32, t: Row)
    requires b < t.block
    ensures !Trims(rows, a, b, t)
  {
  }

  /** The newest row of a key up to a block: none later, and of two in one block the present one. */
  ghost predicate IsNewest(rows: set<Row>, block: u32, r: Row)
  {
    r in rows && r.block <= block
    && forall t :: t in rows && SameKey(r, t) && t.block <= block ==>
      t.block < r.block || (t.block == r.block && (r.present || !t.present))
  }

  /** Trimming keeps each key's newest row at every block from the trim's end on, and makes no other the newest. */
  lemma TrimKeepsNewest(rows: set<Row>, prev: u32, irrev: u32, block: u32, r: Row)
    requires irrev <= block && r.table !in SIMPLE
    ensures IsNewest(rows, block, r) <==> IsNewest(TrimHistory(rows, prev, irrev), block, r)
  {
    var left := TrimHistory(rows, prev, irrev);
    if IsNewest(left, block, r) {
      forall t | t in rows && SameKey(r, t) && t.block <= block
        ensures t.block < r.block || (t.block == r.block && (r.present || !t.present))
      {
        LatestStays(rows, prev, irrev, block, t, rows);
        var m :| m in left && SameKey(t, m) && m.block <= block && t.block <= m.block
          && (t.block == m.block ==> m.present || !t.present);
        assert SameKey(r, m);
      }
    }
  }

  /** Some row at least as new as t stays. */
  lemma {:induction false} LatestStays(rows: set<Row>, prev: u32, irrev: u32, block: u32, t: Row, among: set<Row>)
    requires irrev <= block && t in rows && t.block <= block && t.table !in SIMPLE && among <= rows
    requires forall u :: u in rows && u !in among ==> u.block <= t.block
    ensures exists m :: m in TrimHistory(rows, prev, irrev) && SameKey(t, m) && m.block <= block && t.block <= m.block
              && (t.block == m.block ==> m.present || !t.present)
    decreases among
  {
    if Trims(rows, prev, irrev, t) {
      var u :| u in rows && SameKey(t, u) && prev < u.block <= irrev && t.block < u.block;
      var later := set x | x in among && u.block < x.block;
      assert u in among && u !in later;
      LatestStays(rows, prev, irrev, block, u, later);
    } else {
      assert t in TrimHistory(rows, prev, irrev);
    }
  }

  // ---------- what is committed when ----------

  ghost predicate StatusOk(st: H.Status, received: map<u32, H.Id>)
  {
    && st.head < 0xffff_ffff && 0 !in received
    && if st.head == 0 then st.headId == H.ZERO && st.first == 0
       else st.first <= st.head && st.head in received && received[st.head] == st.headId
  }

  function UpTo(rows: set<Row>, block: u32): set<Row>
  {
    set r | r in rows && r.block <= block
  }

  function ReceivedUpTo(received: map<u32, H.Id>, block: u32): map<u32, H.Id>
  {
    map b | b in received && b <= block :: received[b]
  }

  /** A restart leads to exactly what the committed status says. */
  lemma OpenRestores(im: Image)
    requires StatusOk(im.status, im.received)
    ensures Now(Open(im)) == Image(UpTo(im.rows, im.status.head), ReceivedUpTo(im.received, im.status.head), im.status)
    ensures Open(im).st == im.status && Open(im).streams == [] && Open(im).alive
  {
    var h := im.status.head;
    assert Below(im.rows, H.After(h)) == UpTo(im.rows, h);
    assert ReceivedBelow(im.received, H.After(h)) == ReceivedUpTo(im.received, h);
  }

  lemma {:induction false} PendingAddTo(streams: seq<Stream>, row: Row)
    ensures Pending(AddTo(streams, row)) == Pending(streams) + {row}
  {
    hide Less;
    var out := AddTo(streams, row);
    if streams == [] {
      assert out[1..] == [] && SetOf(out[0].rows) == {row};
    } else if streams[0].table == row.table {
      assert out[1..] == streams[1..];
      assert SetOf(streams[0].rows + [row]) == SetOf(streams[0].rows) + {row};
    } else if Less(row.table, streams[0].table) {
      assert out[1..] == streams && SetOf(out[0].rows) == {row};
    } else {
      PendingAddTo(streams[1..], row);
      assert out[1..] == AddTo(streams[1..], row);
    }
  }

  lemma {:induction false} PendingAddAll(streams: seq<Stream>, rows: seq<Row>)
    ensures Pending(AddAll(streams, rows)) == Pending(streams) + SetOf(rows)
  {
    hide AddTo, Pending;
    if rows != [] {
      var n := |rows| - 1;
      PendingAddAll(streams, rows[..n]);
      PendingAddTo(AddAll(streams, rows[..n]), rows[n]);
      assert rows == rows[..n] + [rows[n]];
    }
  }

  /** While the streams are committed only rows from them come in, and at the end all of them are there. */
  lemma {:induction false} FlushAdds(im: Image, streams: seq<Stream>)
    ensures |FlushLog(im, streams)| == |streams|
    ensures streams != [] ==> FlushLog(im, streams)[|streams| - 1] == im.(rows := im.rows + Pending(streams))
    ensures forall i :: 0 <= i < |streams| ==>
              var d := FlushLog(im, streams)[i];
              im.rows <= d.rows <= im.rows + Pending(streams) && d == im.(rows := d.rows)
    decreases |streams|
  {
    if streams != [] {
      var a := im.(rows := im.rows + SetOf(streams[0].rows));
      FlushAdds(a, streams[1..]);
      assert im.rows + Pending(streams) == a.rows + Pending(streams[1..]);
      var log := FlushLog(im, streams);
      forall i | 0 <= i < |streams|
        ensures im.rows <= log[i].rows <= im.rows + Pending(streams) && log[i] == im.(rows := log[i].rows) {
        if i > 0 { assert log[i] == FlushLog(a, streams[1..])[i - 1]; }
      }
      if |streams| == 1 { assert Pending(streams[1..]) == {}; }
    }
  }

  lemma NothingPending()
    ensures Pending([]) == {}
  {
  }

  lemma FlushEmpties(s: Session)
    ensures Flush(s).streams == [] && Flush(s).alive == s.alive && Flush(s).st == s.st
  {
  }
}
