/** The filler of the PostgreSQL database: fpg_session of fill_pg_plugin.cpp. */
module PgFiller {
  import opened Bytes
  import opened Store
  import opened KeyCodec
  import H = History
  import opened PgHistory

  // ---------- the session ----------

  /** A statement of the block's own transaction. */
  datatype Statement = DeleteFrom(block: u32) | SetStatus(st: H.Status) | InsertReceived(num: u32, id: H.Id)

  function Execute(im: Image, stmt: Statement): Image
  {
    match stmt
    case DeleteFrom(block) => Cut(im, block)
    case SetStatus(st) => im.(status := st)
    case InsertReceived(num, id) => im.(received := im.received[num := id])
  }

  function ExecuteAll(im: Image, stmts: seq<Statement>): Image
  {
    if stmts == [] then im else Execute(ExecuteAll(im, stmts[..|stmts| - 1]), stmts[|stmts| - 1])
  }

  /** The last row of its key in the changed blocks; of two in one block either will do. */
  predicate IsLast(rows: set<Row>, prev: u32, irrev: u32, r: Row)
  {
    r in rows && r.table !in SIMPLE && prev < r.block <= irrev
    && forall u :: u in rows && SameKey(r, u) && prev < u.block <= irrev ==> u.block <= r.block
  }

  lemma {:induction false} LastExists(rows: set<Row>, prev: u32, irrev: u32, t: Row, among: set<Row>)
    requires t in rows && t.table !in SIMPLE && prev < t.block <= irrev
    requires forall u :: u in rows && u !in among ==> u.block <= t.block
    ensures exists m :: IsLast(rows, prev, irrev, m) && SameKey(t, m) && t.block <= m.block
    decreases among
  {
    if u :| u in rows && SameKey(t, u) && prev < u.block <= irrev && t.block < u.block {
      var later := set x | x in among && u.block < x.block;
      assert u in among && u !in later;
      LastExists(rows, prev, irrev, u, later);
    } else {
      assert IsLast(rows, prev, irrev, t);
    }
  }

  lemma LastDecides(rows: set<Row>, prev: u32, irrev: u32, r: Row)
    ensures (exists t :: IsLast(rows, prev, irrev, t) && SameKey(r, t) && r.block < t.block)
       <==> r.table !in SIMPLE && exists t :: t in rows && SameKey(r, t) && prev < t.block <= irrev && r.block < t.block
  {
    if r.table !in SIMPLE {
      if t :| t in rows && SameKey(r, t) && prev < t.block <= irrev && r.block < t.block {
        LastExists(rows, prev, irrev, t, rows);
        var m :| IsLast(rows, prev, irrev, m) && SameKey(t, m) && t.block <= m.block;
        assert SameKey(r, m);
      }
    }
  }

  /** The statements of trim_history: the simple tables by block, then for the last changed row of each key a deletion
      of the key's rows before it. */
  method TrimHistoryLoops(rows: set<Row>, prev: u32, irrev: u32) returns (left: set<Row>)
    ensures left == TrimHistory(rows, prev, irrev)
    ensures forall r :: r in left && r.table !in SIMPLE ==>
              r in rows && forall t :: t in rows && SameKey(r, t) && prev < t.block <= irrev ==> t.block <= r.block
    ensures forall r :: r in left && r.table in SIMPLE ==> r in rows && !(prev <= r.block < irrev)
    ensures forall r :: r in rows && r !in left ==>
              if r.table in SIMPLE then prev <= r.block < irrev
              else exists t :: t in rows && SameKey(r, t) && prev < t.block <= irrev && r.block < t.block
  {
    left := set r | r in rows && !(r.table in SIMPLE && prev <= r.block < irrev);
    var search := set r | r in rows && IsLast(rows, prev, irrev, r);
    ghost var last, done: set<Row> := search, {};
    while search != {}
      invariant search + done == last
      invariant left == set r | r in rows && !(r.table in SIMPLE && prev <= r.block < irrev)
                                && !(exists t :: t in done && SameKey(r, t) && r.block < t.block)
      decreases search
    {
      var t :| t in search;
      left := set r | r in left && !(SameKey(r, t) && r.block < t.block);
      search, done := search - {t}, done + {t};
    }
    forall r | r in rows ensures r in left <==> !Trims(rows, prev, irrev, r) {
      LastDecides(rows, prev, irrev, r);
      assert forall t :: t in done <==> IsLast(rows, prev, irrev, t);
    }
    TrimIsExact(rows, prev, irrev);
  }

  class FpgSession {
    const settings: H.Settings
    var db: Image
    var streams: seq<Stream>
    var head: u32
    var headId: H.Id
    var irreversible: u32
    var irreversibleId: H.Id
    var first: u32
    var alive: bool
    ghost var log: seq<Image>

    ghost function State(): AnySession
      reads this
    {
      Session(log, streams, H.Status(head, headId, irreversible, irreversibleId, first), alive)
    }

    ghost predicate Valid()
      reads this
      ensures Valid() ==> State().log != []
    {
      log != [] && log[|log| - 1] == db
    }

    constructor (settings: H.Settings, db: Image)
      ensures Valid() && this.settings == settings && State() == Session([db], [], H.EMPTY, true)
    {
      this.settings, this.db, streams := settings, db, [];
      head, headId, irreversible, irreversibleId, first := 0, H.ZERO, 0, H.ZERO, 0;
      alive, log := true, [db];
    }

    /** Commit the statements of the main transaction. */
    method CommitWork(stmts: seq<Statement>)
      requires Valid()
      modifies this`db, this`log
      ensures Valid() && db == ExecuteAll(old(db), stmts) && log == old(log) + [db]
    {
      db := ExecuteAll(db, stmts);
      log := log + [db];
    }

    method WriteStream(row: Row)
      modifies this`streams
      ensures streams == AddTo(old(streams), row)
    {
      hide Less, AddTo;
      var at := 0;
      while at < |streams| && streams[at].table != row.table && !Less(row.table, streams[at].table)
        invariant at <= |streams|
        invariant forall i :: 0 <= i < at ==> streams[i].table != row.table && !Less(row.table, streams[i].table)
      {
        at := at + 1;
      }
      AddToAt(streams, row, at);
      if at < |streams| && streams[at].table == row.table {
        streams := streams[..at] + [streams[at].(rows := streams[at].rows + [row])] + streams[at + 1..];
      } else {
        streams := streams[..at] + [Stream(row.table, [row])] + streams[at..];
      }
    }

    method WriteRows(rows: seq<Row>)
      modifies this`streams
      ensures streams == AddAll(old(streams), rows)
    {
      for i := 0 to |rows|
        invariant streams == AddAll(old(streams), rows[..i])
      {
        assert rows[..i + 1][..i] == rows[..i];
        WriteStream(rows[i]);
      }
      assert rows[..|rows|] == rows;
    }

    method FlushStreams()
      requires Valid()
      modifies this`db, this`log, this`streams
      ensures Valid() && State() == Flush(old(State()))
    {
      var i := 0;
      while i < |streams|
        invariant i <= |streams| && streams == old(streams) && Valid()
        invariant log + FlushLog(db, streams[i..]) == old(log) + FlushLog(old(db), streams)
        decreases |old(streams)| - i
      {
        assert streams[i..][0] == streams[i] && streams[i..][1..] == streams[i + 1..];
        db := db.(rows := db.rows + SetOf(streams[i].rows));
        log := log + [db];
        i := i + 1;
      }
      streams := [];
    }

    function FillStatus(): H.Status
      reads this
    {
      if irreversible < head then H.Status(head, headId, irreversible, irreversibleId, first)
      else H.Status(head, headId, head, headId, first)
    }

    method CloseStreams()
      requires Valid()
      modifies this`db, this`log, this`streams
      ensures Valid() && State() == Close(old(State()))
    {
      hide FlushLog;
      if streams == [] {
        return;
      }
      FlushStreams();
      OneStatement(db, SetStatus(FillStatus()));
      CommitWork([SetStatus(FillStatus())]);
    }

    /** received(get_status_result_v0): load the status, and truncate after its head. */
    method ReceivedStatus()
      requires Valid() && State() == Session([db], [], H.EMPTY, true)
      modifies this
      ensures Valid() && State() == Open(old(db))
    {
      hide CutStatus, Cut;
      head, headId := db.status.head, db.status.headId;
      irreversible, irreversibleId, first := db.status.irreversible, db.status.irreversibleId, db.status.first;
      ghost var was := db;
      var block := H.After(head);
      StepBack(block);
      OneStatement(was, DeleteFrom(block));
      CommitWork([DeleteFrom(block)]);
    }

    /** The end of truncate: the head is the block before, if that is still there; block numbers have 32 bits. */
    method StepBack(block: u32)
      modifies this`head, this`headId, this`first
      ensures State() == old(State()).(st := CutStatus(db, old(State()).st, block))
    {
      var left, before := ReceivedBelow(db.received, block), H.Before(block);
      if before in left {
        head, headId := before, left[before];
      } else {
        head, headId := 0, H.ZERO;
      }
      first := if first < head then first else head;
    }

    method Trim()
      requires Valid()
      modifies this`db, this`log, this`first
      ensures Valid() && State() == PgHistory.Trim(old(State()))
    {
      var end := if head < irreversible then head else irreversible;
      if first >= end {
        return;
      }
      var rows := TrimHistoryLoops(db.rows, first, end);
      db := db.(rows := rows, received := TrimReceived(db.received, first, end));
      log := log + [db];
      first := end;
    }

    /** An exception closes the session, and the open streams are rolled back. */
    method Fail()
      requires Valid()
      modifies this`streams, this`alive
      ensures Valid() && State() == Dead(old(State()))
    {
      streams, alive := [], false;
    }

    /** The streams to close before the block, and the trim. */
    method PrepareFor(r: Result, bulk: bool, large: bool, forks: bool)
      requires Valid() && forks == (r.pos.num <= head) && bulk == IsBulk(State(), r) && large == (!LongAgo(r) &&
               r.large)
      modifies this`db, this`log, this`streams, this`first
      ensures Valid() && State() == Prepare(settings.trim, old(State()), r)
    {
      hide Valid, Close, PgHistory.Trim;
      if forks || !bulk || large || r.pos.num % 200 == 0 {
        CloseStreams();
      }
      if settings.trim && streams == [] {
        Trim();
      }
    }

    method AdvanceTo(r: Result)
      modifies this`head, this`headId, this`irreversible, this`irreversibleId, this`first
      ensures State() == old(State()).(st := Advanced(old(State()).st, r))
    {
      head, headId := r.pos.num, r.pos.id;
      irreversible, irreversibleId := r.irreversible.num, r.irreversible.id;
      if first == 0 {
        first := head;
      }
    }

    method FinishBlock(r: Result, bulk: bool, forks: bool)
      requires Valid()
      modifies this`db, this`log, this`streams
      ensures Valid() && State() == Finish(old(State()), r, bulk, forks)
    {
      hide Flush, Cut, H.Clamp, ExecuteAll, Execute, AddTo, Pending;
      FillStatusIsClamp();
      var status := FillStatus();
      if !bulk && !forks {
        FlushKeepsFields(State());
        FlushStreams();
      }
      var work: seq<Statement> := if forks then [DeleteFrom(r.pos.num)] else [];
      work := work + (if bulk then [] else [SetStatus(status)]);
      BlockStatements(db, r, forks, bulk, status);
      CommitWork(work + [InsertReceived(r.pos.num, r.pos.id)]);
    }

    /** The main transaction of a block; its statements take effect when it commits, after the streams that are
        flushed. */
    method BlockWork(r: Result, bulk: bool)
      requires Valid()
      modifies this
      ensures Valid() && State() == AddBlock(old(State()), r, bulk)
    {
      hide AddAll, CutStatus, Finish, Advanced;
      ghost var s: Session := State();
      var forks := r.pos.num <= head;
      if forks {
        StepBack(r.pos.num);
      }
      if headId != H.ZERO && (r.prev.None? || r.prev.value.id != headId) {
        Fail();
        return;
      }
      ghost var st0 := State().st;
      WriteRows(r.rows);
      AdvanceTo(r);
      assert State() == s.(streams := AddAll(s.streams, r.rows), st := Advanced(st0, r));
      FinishBlock(r, bulk, forks);
    }

    lemma FillStatusIsClamp()
      ensures FillStatus() == H.Clamp(State().st)
    {
    }

    /** process_blocks_result; false closes the session. */
    method ProcessBlocksResult(r: Result) returns (more: bool)
      requires Valid()
      modifies this
      ensures Valid() && State() == Process(settings, old(State()), r) && more == State().alive
    {
      hide Valid, Prepare, AddBlock, Close;
      if !alive {
        return false;
      }
      var large := !LongAgo(r) && r.large;
      var forks := r.pos.num <= head;
      var bulk := (LongAgo(r) || large) && !forks;
      if settings.stopBefore != 0 && r.pos.num >= settings.stopBefore {
        CloseStreams();
        Fail();
        return false;
      }
      PrepareFor(r, bulk, large, forks);
      BlockWork(r, bulk);
      if alive && large {
        CloseStreams();
      }
      return alive;
    }
  }

  lemma BlockStatements(im: Image, r: Result, forks: bool, bulk: bool, st: H.Status)
    ensures var work := (if forks then [DeleteFrom(r.pos.num)] else []) + (if bulk then [] else [SetStatus(st)]);
      var cut := if forks then Cut(im, r.pos.num) else im;
      ExecuteAll(im, work + [InsertReceived(r.pos.num, r.pos.id)])
        == cut.(received := cut.received[r.pos.num := r.pos.id], status := if bulk then cut.status else st)
  {
    var first: seq<Statement> := if forks then [DeleteFrom(r.pos.num)] else [];
    var second: seq<Statement> := if bulk then [] else [SetStatus(st)];
    var last := InsertReceived(r.pos.num, r.pos.id);
    assert ExecuteAll(im, []) == im;
    if forks { OneStatement(im, DeleteFrom(r.pos.num)); }
    var cut := ExecuteAll(im, first);
    if bulk {
      assert first + second == first;
    } else {
      assert (first + second)[..|first|] == first;
    }
    assert (first + second + [last])[..|first + second|] == first + second;
  }

  /** Where a row's stream is, or goes. */
  lemma {:induction false} AddToAt(streams: seq<Stream>, row: Row, at: nat)
    requires at <= |streams| && forall i :: 0 <= i < at ==>
      streams[i].table != row.table && !Less(row.table, streams[i].table)
    requires at < |streams| ==> streams[at].table == row.table || Less(row.table, streams[at].table)
    ensures AddTo(streams, row) ==
      if at < |streams| && streams[at].table == row.table then
        streams[..at] + [streams[at].(rows := streams[at].rows + [row])] + streams[at + 1..]
      else streams[..at] + [Stream(row.table, [row])] + streams[at..]
  {
    hide Less;
    if at > 0 {
      var rest := streams[1..];
      assert rest[at - 1..] == streams[at..] && [streams[0]] + rest[..at - 1] == streams[..at];
      assert AddTo(streams, row) == [streams[0]] + AddTo(rest, row);
      assert forall i :: 0 <= i < at - 1 ==> rest[i] == streams[i + 1];
      assert at < |streams| ==> rest[at - 1] == streams[at];
      hide AddTo;
      AddToAt(rest, row, at - 1);
      if at < |streams| && streams[at].table == row.table {
        assert rest[at..] == streams[at + 1..];
      }
    } else if streams != [] {
      assert streams[..0] == [] && streams[0..] == streams;
    }
  }

  lemma OneStatement(im: Image, stmt: Statement)
    ensures ExecuteAll(im, [stmt]) == Execute(im, stmt)
  {
    assert [stmt][..0] == [];
    assert ExecuteAll(im, []) == im;
  }

  lemma FlushKeepsFields(s: Session)
    ensures Flush(s).st == s.st && Flush(s).alive == s.alive && Flush(s).streams == []
  {
  }
}
