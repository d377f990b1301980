/** Runs of the PostgreSQL filler with forks and trims: exactly which of their images a restart repairs. */
module PgRuns {
  import opened Bytes
  import opened Store
  import opened KeyCodec
  import H = History
  import opened PgHistory

  // ---------- what a restart makes of any image ----------

  /** The status is well-formed, and if its head's block has been received it has the same id. */
  predicate Wellformed(st: H.Status, received: map<u32, H.Id>)
  {
    && st.head < 0xffff_ffff && st.first <= st.head && (st.head == 0 ==> st.headId == H.ZERO)
    && 0 !in received && (st.head in received ==> received[st.head] == st.headId)
  }

  predicate HeadThere(im: Image)
  {
    im.status.head == 0 || im.status.head in im.received
  }

  /** A restart leaves exactly the due rows of the blocks up to the stored head, and stands at it. */
  ghost predicate Restores(im: Image, due: set<Row>)
  {
    var h := im.status.head;
    Now(Open(im)) == Image(UpTo(due, h), ReceivedUpTo(im.received, h), im.status) && Open(im).st == im.status
  }

  lemma RestoresExactly(im: Image, due: set<Row>, open: set<Row>)
    requires Wellformed(im.status, im.received) && im.rows + open == due && im.rows !! open
    ensures Restores(im, due) <==> HeadThere(im) && forall r :: r in open ==> im.status.head < r.block
    ensures Restores(im, due) ==> StatusOk(im.status, im.received)
  {
    var h := im.status.head;
    assert Below(im.rows, H.After(h)) == UpTo(im.rows, h);
    assert ReceivedBelow(im.received, H.After(h)) == ReceivedUpTo(im.received, h);
    if r :| r in open && r.block <= h {
      assert r in UpTo(due, h) && r !in UpTo(im.rows, h);
    } else {
      assert UpTo(due, h) == UpTo(im.rows, h);
    }
  }

  // ---------- what is due when ----------

  /** As an image is committed: the rows there should be, those of them still in streams, and of these the rows of a
      switched fork. */
  datatype Moment = Moment(due: set<Row>, open: set<Row>, owed: set<Row>)

  function Last(b: Moment, ms: seq<Moment>): Moment
  {
    if ms == [] then b else ms[|ms| - 1]
  }

  function FlushMoments(b: Moment, streams: seq<Stream>): seq<Moment>
    decreases |streams|
  {
    if streams == [] then [] else
      var open := Pending(streams[1..]);
      [Moment(b.due, open, b.owed * open)] + FlushMoments(b, streams[1..])
  }

  function CloseMoments(b: Moment, streams: seq<Stream>): seq<Moment>
  {
    if streams == [] then [] else FlushMoments(b, streams) + [Moment(b.due, {}, {})]
  }

  ghost function ClosedMoments(s: Session, b: Moment, r: Result): seq<Moment>
  {
    if MustClose(s, r) then CloseMoments(b, s.streams) else []
  }

  ghost function TrimMoments(trim: bool, s: Session, b: Moment): seq<Moment>
  {
    var end := if s.st.head < s.st.irreversible then s.st.head else s.st.irreversible;
    if trim && s.streams == [] && s.st.first < end then [Moment(TrimHistory(b.due, s.st.first, end), {}, {})] else []
  }

  ghost function PrepareMoments(trim: bool, s: Session, b: Moment, r: Result): seq<Moment>
  {
    var ms := ClosedMoments(s, b, r);
    ms + TrimMoments(trim, Closed(s, r), Last(b, ms))
  }

  /** A block's rows are due with the block, and of a fork those from the block on no longer are. */
  ghost function AddMoments(s: Session, b: Moment, r: Result, bulk: bool): seq<Moment>
  {
    var forks := r.pos.num <= s.st.head;
    var rows := SetOf(r.rows);
    if !Links(if forks then CutStatus(Now(s), s.st, r.pos.num) else s.st, r) then []
    else if forks then [Moment(Below(b.due, r.pos.num) + rows, rows, rows)]
    else if bulk then [Moment(b.due + rows, b.open + rows, b.owed)]
    else FlushMoments(b.(due := b.due + rows), AddAll(s.streams, r.rows)) + [Moment(b.due + rows, {}, {})]
  }

  ghost function ProcessMoments(cfg: H.Settings, s: Session, b: Moment, r: Result): seq<Moment>
  {
    if !s.alive then []
    else if cfg.stopBefore != 0 && r.pos.num >= cfg.stopBefore then CloseMoments(b, s.streams)
    else
      var p, ms := Prepare(cfg.trim, s, r), PrepareMoments(cfg.trim, s, b, r);
      var a, more := AddBlock(p, r, IsBulk(s, r)), AddMoments(p, Last(b, ms), r, IsBulk(s, r));
      ms + more + if a.alive && !LongAgo(r) && r.large then CloseMoments(Last(Last(b, ms), more), a.streams) else []
  }

  ghost function RunMoments(cfg: H.Settings, s: Session, ms: seq<Moment>, rs: seq<Result>): (r: seq<Moment>)
    requires ms != []
    ensures r != []
  {
    if rs == [] then ms else
      var init := rs[..|rs| - 1];
      var before := RunMoments(cfg, s, ms, init);
      before + ProcessMoments(cfg, Run(cfg, s, init), before[|before| - 1], rs[|rs| - 1])
  }

  // ---------- each image at its moment ----------

  /** Of the rows in streams the image's status vouches exactly for the owed ones. */
  ghost predicate Explains(im: Image, m: Moment)
  {
    && Wellformed(im.status, im.received) && im.rows + m.open == m.due && im.rows !! m.open && m.owed <= m.open
    && forall r :: r in m.open ==> (r.block <= im.status.head <==> r in m.owed)
  }

  /** t continues s with images explained by the moments. */
  ghost predicate Grows(s: Session, t: Session, ms: seq<Moment>)
  {
    && |t.log| == |s.log| + |ms| && s.log <= t.log
    && forall i :: 0 <= i < |ms| ==> Explains(t.log[|s.log| + i], ms[i])
  }

  lemma GrowsTransitive(s: Session, t: Session, u: Session, ms: seq<Moment>, ms': seq<Moment>)
    requires Grows(s, t, ms) && Grows(t, u, ms')
    ensures Grows(s, u, ms + ms')
  {
    hide Explains;
    forall i | 0 <= i < |ms + ms'| ensures Explains(u.log[|s.log| + i], (ms + ms')[i]) {
      if i < |ms| {
        assert Explains(t.log[|s.log| + i], ms[i]);
      } else {
        assert Explains(u.log[|t.log| + (i - |ms|)], ms'[i - |ms|]);
      }
    }
  }

  predicate AllAbove(table: Bytes, streams: seq<Stream>)
  {
    forall i :: 0 <= i < |streams| ==> Less(table, streams[i].table)
  }

  /** Each stream has rows of its table, and the tables are in order. */
  predicate Sorted(streams: seq<Stream>)
  {
    streams == [] ||
    ((forall x :: x in streams[0].rows ==> x.table == streams[0].table)
     && AllAbove(streams[0].table, streams[1..]) && Sorted(streams[1..]))
  }

  /** What holds between blocks. */
  ghost predicate Fit(s: Session, m: Moment)
  {
    && Explains(Now(s), m) && m.open == Pending(s.streams) && Sorted(s.streams) && Wellformed(s.st, Now(s).received)
    && Now(s).status.head <= s.st.head
    && (forall r :: r in m.due ==> r.block <= s.st.head) && (forall b :: b in Now(s).received ==> b <= s.st.head)
  }

  // ---------- streams ----------

  lemma {:induction false} SortedAddTo(streams: seq<Stream>, row: Row)
    requires Sorted(streams)
    ensures Sorted(AddTo(streams, row))
    ensures forall t :: AllAbove(t, streams) && Less(t, row.table) ==> AllAbove(t, AddTo(streams, row))
  {
    hide Less;
    var out := AddTo(streams, row);
    if streams == [] {
      assert out[1..] == [];
    } else if streams[0].table == row.table {
      assert out[1..] == streams[1..];
    } else if Less(row.table, streams[0].table) {
      assert out[1..] == streams;
      forall i | 0 <= i < |streams| ensures Less(row.table, streams[i].table) {
        if i > 0 {
          assert Less(streams[0].table, streams[1..][i - 1].table);
          LessTransitive(row.table, streams[0].table, streams[i].table);
        }
      }
    } else {
      LessTotal(streams[0].table, row.table);
      SortedAddTo(streams[1..], row);
      assert out[1..] == AddTo(streams[1..], row);
      forall t | AllAbove(t, streams) && Less(t, row.table) ensures AllAbove(t, out) {
        assert AllAbove(t, streams[1..]);
        forall i | 0 <= i < |out| ensures Less(t, out[i].table) {
          if i > 0 { assert out[i] == out[1..][i - 1]; }
        }
      }
    }
  }

  lemma {:induction false} SortedAddAll(streams: seq<Stream>, rows: seq<Row>)
    requires Sorted(streams)
    ensures Sorted(AddAll(streams, rows))
  {
    hide AddTo, Sorted;
    if rows != [] {
      var n := |rows| - 1;
      SortedAddAll(streams, rows[..n]);
      SortedAddTo(AddAll(streams, rows[..n]), rows[n]);
    }
  }

  lemma {:induction false} PendingAbove(table: Bytes, streams: seq<Stream>)
    requires Sorted(streams) && AllAbove(table, streams)
    ensures forall x :: x in Pending(streams) ==> Less(table, x.table)
  {
    hide Less;
    if streams != [] {
      assert AllAbove(table, streams[1..]);
      PendingAbove(table, streams[1..]);
    }
  }

  /** The first stream has none of the others' rows. */
  lemma StreamsDisjoint(streams: seq<Stream>)
    requires Sorted(streams) && streams != []
    ensures SetOf(streams[0].rows) !! Pending(streams[1..])
  {
    hide Less;
    PendingAbove(streams[0].table, streams[1..]);
    LessIrreflexive(streams[0].table);
  }

  // ---------- closing and trimming ----------

  lemma {:induction false} FlushExplained(im: Image, m: Moment, streams: seq<Stream>)
    requires Sorted(streams) && Explains(im, m) && m.open == Pending(streams)
    ensures var log, ms := FlushLog(im, streams), FlushMoments(m, streams);
      && |log| == |ms| == |streams|
      && (forall i :: 0 <= i < |ms| ==> Explains(log[i], ms[i]))
      && (streams != [] ==> log[|log| - 1] == im.(rows := m.due) && ms[|ms| - 1] == Moment(m.due, {}, {}))
    decreases |streams|
  {
    if streams != [] {
      StreamsDisjoint(streams);
      var a := im.(rows := im.rows + SetOf(streams[0].rows));
      var open := Pending(streams[1..]);
      var m' := Moment(m.due, open, m.owed * open);
      assert Explains(a, m');
      FlushExplained(a, m', streams[1..]);
      OwedTwice(m, m', streams[1..]);
      if |streams| == 1 { assert streams[1..] == []; }
    }
  }

  lemma {:induction false} OwedTwice(m: Moment, m': Moment, streams: seq<Stream>)
    requires m'.due == m.due && Pending(streams) <= m'.open && m'.owed == m.owed * m'.open
    ensures FlushMoments(m, streams) == FlushMoments(m', streams)
    decreases |streams|
  {
    if streams != [] {
      assert Pending(streams[1..]) <= Pending(streams);
      OwedTwice(m, m', streams[1..]);
      assert m.owed * Pending(streams[1..]) == m'.owed * Pending(streams[1..]);
    }
  }

  /** r is s with the log's suffix explained, and fits the last moment. */
  ghost predicate Follows(s: Session, m: Moment, t: Session, ms: seq<Moment>)
  {
    Grows(s, t, ms) && Fit(t, Last(m, ms))
  }

  lemma LastOf(m: Moment, ms: seq<Moment>, ms': seq<Moment>)
    ensures Last(m, ms + ms') == Last(Last(m, ms), ms')
  {
  }

  lemma FollowsTransitive(s: Session, m: Moment, t: Session, ms: seq<Moment>, u: Session, ms': seq<Moment>)
    requires Follows(s, m, t, ms) && Follows(t, Last(m, ms), u, ms')
    ensures Follows(s, m, u, ms + ms')
  {
    hide Grows, Fit;
    GrowsTransitive(s, t, u, ms, ms');
    LastOf(m, ms, ms');
  }

  lemma FollowsSelf(s: Session, m: Moment)
    requires Fit(s, m)
    ensures Follows(s, m, s, [])
  {
  }

  /** The streams are committed one by one; the rows due are all there with the last. */
  lemma FlushFollows(s: Session, m: Moment)
    requires Fit(s, m)
    ensures var f := Flush(s); var ms := FlushMoments(m, s.streams);
      && Follows(s, m, f, ms) && f.st == s.st && f.alive == s.alive && f.streams == []
      && Now(f) == Now(s).(rows := m.due) && Last(m, ms).due == m.due
  {
    hide Explains, Wellformed, FlushMoments, FlushLog, Pending;
    FlushExplained(Now(s), m, s.streams);
    NothingPending();
    OpenNone(Now(s), m);
    var f := Flush(s);
    if s.streams != [] {
      assert f.log[|f.log| - 1] == FlushLog(Now(s), s.streams)[|s.streams| - 1];
      ExplainsReceived(Now(s), m);
    }
  }

  lemma OpenNone(im: Image, m: Moment)
    requires Explains(im, m)
    ensures m.open == {} ==> im.rows == m.due && m.owed == {}
  {
  }

  lemma ExplainsReceived(im: Image, m: Moment)
    requires Explains(im, m)
    ensures Wellformed(im.status, im.received)
  {
  }

  /** close_streams: the streams are committed before the status that vouches for their rows. */
  lemma CloseFollows(s: Session, m: Moment)
    requires Fit(s, m)
    ensures var c := Close(s); var ms := CloseMoments(m, s.streams);
      Follows(s, m, c, ms) && c.st == s.st && c.alive == s.alive && c.streams == [] && Last(m, ms).due == m.due
  {
    hide FlushMoments, Flush, Follows;
    if s.streams == [] {
      FollowsSelf(s, m);
    } else {
      FlushFollows(s, m);
      var f, ms := Flush(s), FlushMoments(m, s.streams);
      FollowsFit(s, m, f, ms);
      StatusFollows(f, Last(m, ms));
      FollowsTransitive(s, m, f, ms, Close(s), [Moment(m.due, {}, {})]);
    }
  }

  /** The session's status is committed with no row in a stream. */
  lemma StatusFollows(s: Session, m: Moment)
    requires Fit(s, m) && s.streams == []
    ensures Follows(s, m, Commit(s, Now(s).(status := H.Clamp(s.st))), [Moment(m.due, {}, {})])
  {
    NothingPending();
  }

  lemma TrimFollows(trim: bool, s: Session, m: Moment)
    requires Fit(s, m)
    ensures var t := if trim && s.streams == [] then Trim(s) else s;
      Follows(s, m, t, TrimMoments(trim, s, m)) && t.st.head == s.st.head && t.streams == s.streams
        && t.alive == s.alive
  {
    hide TrimHistory;
    NothingPending();
    OpenNone(Now(s), m);
    var end := if s.st.head < s.st.irreversible then s.st.head else s.st.irreversible;
    if trim && s.streams == [] && s.st.first < end {
      TrimmedRows(m.due, s.st.first, end);
      var t := Trim(s);
      assert Now(t) == Now(s).(rows := TrimHistory(m.due, s.st.first, end),
                               received := TrimReceived(Now(s).received, s.st.first, end));
    } else {
      FollowsSelf(s, m);
    }
  }

  lemma TrimmedRows(rows: set<Row>, prev: u32, irrev: u32)
    ensures TrimHistory(rows, prev, irrev) <= rows
  {
  }

  lemma PrepareFollows(trim: bool, s: Session, m: Moment, r: Result)
    requires Fit(s, m)
    ensures var p := Prepare(trim, s, r); var ms := PrepareMoments(trim, s, m, r);
      && Follows(s, m, p, ms) && p.st.head == s.st.head && p.alive == s.alive
      && (MustClose(s, r) ==> p.streams == [])
  {
    hide Follows, Fit, Close, CloseMoments, TrimMoments, Trim;
    var c, ms := Closed(s, r), ClosedMoments(s, m, r);
    CloseFollows(s, m);
    FollowsSelf(s, m);
    FollowsFit(s, m, c, ms);
    TrimFollows(trim, c, Last(m, ms));
    FollowsTransitive(s, m, c, ms, Prepare(trim, s, r), TrimMoments(trim, c, Last(m, ms)));
  }

  lemma FollowsFit(s: Session, m: Moment, t: Session, ms: seq<Moment>)
    requires Follows(s, m, t, ms)
    ensures Fit(t, Last(m, ms))
  {
  }

  // ---------- the block's transaction ----------

  /** The node's rows are of their block. */
  predicate FromNode(r: Result)
  {
    1 <= r.pos.num < 0xffff_ffff && forall i :: 0 <= i < |r.rows| ==> r.rows[i].block == r.pos.num
  }

  lemma NewRows(r: Result)
    requires FromNode(r)
    ensures forall x :: x in SetOf(r.rows) ==> x.block == r.pos.num
  {
  }

  /** What a fork commits. */
  ghost function Forked(im: Image, st: H.Status, r: Result): Image
  {
    Image(Below(im.rows, r.pos.num), ReceivedBelow(im.received, r.pos.num)[r.pos.num := r.pos.id], H.Clamp(st))
  }

  lemma ForkExplained(im: Image, m: Moment, r: Result, st: H.Status)
    requires Explains(im, m) && m.open == {} && FromNode(r)
    requires st.head == r.pos.num && st.headId == r.pos.id && st.first <= st.head
    ensures var rows := SetOf(r.rows);
      Explains(Forked(im, st, r), Moment(Below(m.due, r.pos.num) + rows, rows, rows))
  {
    NewRows(r);
  }

  lemma CutFirst(im: Image, st: H.Status, num: u32)
    requires 1 <= num
    ensures CutStatus(im, st, num).first <= CutStatus(im, st, num).head < num
  {
  }

  /** A fork: rows from the block on are gone, and its own are in the streams although the status is the block's. */
  lemma ForkFollows(s: Session, m: Moment, r: Result)
    requires Fit(s, m) && s.alive && FromNode(r) && r.pos.num <= s.st.head && s.streams == []
    requires Links(CutStatus(Now(s), s.st, r.pos.num), r)
    ensures Follows(s, m, AddBlock(s, r, false), AddMoments(s, m, r, false))
  {
    hide AddAll, Pending, Sorted, Explains, CutStatus, FromNode;
    var st := Advanced(CutStatus(Now(s), s.st, r.pos.num), r);
    FromNodeNum(r);
    CutFirst(Now(s), s.st, r.pos.num);
    NothingPending();
    SortedNone();
    SortedAddAll([], r.rows);
    PendingAddAll([], r.rows);
    ForkExplained(Now(s), m, r, st);
    assert Now(AddBlock(s, r, false)) == Forked(Now(s), st, r);
    NewRows(r);
  }

  lemma FromNodeNum(r: Result)
    requires FromNode(r)
    ensures 1 <= r.pos.num < 0xffff_ffff
  {
  }

  lemma SortedNone()
    ensures Sorted([])
  {
  }

  /** Rows join the streams, and the session is at the block; nothing is committed yet. */
  lemma JoinFits(s: Session, m: Moment, r: Result)
    requires Fit(s, m) && FromNode(r) && s.st.head < r.pos.num
    ensures var a := s.(streams := AddAll(s.streams, r.rows), st := Advanced(s.st, r)); var rows := SetOf(r.rows);
      Fit(a, Moment(m.due + rows, m.open + rows, m.owed))
  {
    hide AddAll, Pending, Sorted;
    SortedAddAll(s.streams, r.rows);
    PendingAddAll(s.streams, r.rows);
    NewRows(r);
  }

  lemma FinishFollows(a: Session, m: Moment, r: Result, bulk: bool)
    requires Fit(a, m) && a.st.head == r.pos.num && a.st.headId == r.pos.id && 1 <= r.pos.num
    requires Now(a).status.head < r.pos.num && (!bulk ==> a.streams == [])
    ensures var b := Commit(a, Now(a).(received := Now(a).received[r.pos.num := r.pos.id],
                                        status := if bulk then Now(a).status else H.Clamp(a.st)));
      Follows(a, m, b, [if bulk then m else Moment(m.due, {}, {})])
  {
    hide Sorted, Pending;
    NothingPending();
  }

  lemma ForwardFollows(s: Session, m: Moment, r: Result, bulk: bool)
    requires Fit(s, m) && s.alive && FromNode(r) && s.st.head < r.pos.num && Links(s.st, r)
    ensures Follows(s, m, AddBlock(s, r, bulk), AddMoments(s, m, r, bulk))
  {
    hide AddAll, Pending, Sorted, Follows, FlushMoments, Flush, Grows, Explains;
    JoinFits(s, m, r);
    var rows := SetOf(r.rows);
    var a := s.(streams := AddAll(s.streams, r.rows), st := Advanced(s.st, r));
    var m' := Moment(m.due + rows, m.open + rows, m.owed);
    HeadBehind(s, m);
    if bulk {
      FinishFollows(a, m', r, true);
    } else {
      FlushFollows(a, m');
      var f, ms := Flush(a), FlushMoments(m', a.streams);
      FollowsFit(a, m', f, ms);
      FinishFollows(f, Last(m', ms), r, false);
      FollowsTransitive(a, m', f, ms, AddBlock(s, r, bulk), [Moment(m'.due, {}, {})]);
      OwedNothing(m, m', a.streams);
    }
    SameLog(s, m, a, m', AddBlock(s, r, bulk), AddMoments(s, m, r, bulk));
  }

  lemma HeadBehind(s: Session, m: Moment)
    requires Fit(s, m)
    ensures Now(s).status.head <= s.st.head
  {
  }

  lemma {:induction false} OwedNothing(m: Moment, m': Moment, streams: seq<Stream>)
    requires m.owed == m'.owed
    ensures FlushMoments(m.(due := m'.due), streams) == FlushMoments(m', streams)
    decreases |streams|
  {
    if streams != [] {
      OwedNothing(m, m', streams[1..]);
    }
  }

  lemma SameLog(s: Session, m: Moment, a: Session, m': Moment, t: Session, ms: seq<Moment>)
    requires Follows(a, m', t, ms) && a.log == s.log && ms != []
    ensures Follows(s, m, t, ms)
  {
    hide Fit, Explains;
  }

  lemma AddFollows(s: Session, m: Moment, r: Result, bulk: bool)
    requires Fit(s, m) && s.alive && FromNode(r) && (r.pos.num <= s.st.head ==> s.streams == [] && !bulk)
    ensures var a := AddBlock(s, r, bulk); var ms := AddMoments(s, m, r, bulk);
      if a.alive then Follows(s, m, a, ms) else a.log == s.log && ms == []
  {
    hide Fit, Follows, AddAll, Flush, FlushMoments, Cut, Sorted, Finish;
    var forks := r.pos.num <= s.st.head;
    if Links(if forks then CutStatus(Now(s), s.st, r.pos.num) else s.st, r) {
      AddLives(s, r, bulk);
      if forks { ForkFollows(s, m, r); } else { ForwardFollows(s, m, r, bulk); }
    }
  }

  lemma AddLives(s: Session, r: Result, bulk: bool)
    requires s.alive && Links(if r.pos.num <= s.st.head then CutStatus(Now(s), s.st, r.pos.num) else s.st, r)
    ensures AddBlock(s, r, bulk).alive
  {
    hide AddAll, Cut;
  }

  lemma ForksClose(s: Session, r: Result)
    ensures r.pos.num <= s.st.head ==> MustClose(s, r) && !IsBulk(s, r)
  {
  }

  lemma FollowsGrows(s: Session, m: Moment, t: Session, ms: seq<Moment>)
    requires Follows(s, m, t, ms)
    ensures Grows(s, t, ms)
  {
  }

  lemma GrowsDead(s: Session, t: Session, ms: seq<Moment>)
    requires Grows(s, t, ms)
    ensures Grows(s, Dead(t), ms)
  {
    hide Explains;
  }

  lemma SameLogGrows(s: Session, t: Session, u: Session, ms: seq<Moment>)
    requires Grows(s, t, ms) && u.log == t.log
    ensures Grows(s, u, ms)
  {
    hide Explains;
  }

  /** Every block, with or without a fork and a trim: each image is as its moment says. */
  lemma ProcessFollows(cfg: H.Settings, s: Session, m: Moment, r: Result)
    requires Fit(s, m) && s.alive && FromNode(r)
    ensures var p := Process(cfg, s, r); var ms := ProcessMoments(cfg, s, m, r);
      Grows(s, p, ms) && (p.alive ==> Fit(p, Last(m, ms)))
  {
    hide Fit, Follows, Grows, Close, CloseMoments, Prepare, PrepareMoments, AddBlock, AddMoments, FromNode, IsBulk,
      LongAgo, MustClose;
    if cfg.stopBefore != 0 && r.pos.num >= cfg.stopBefore {
      CloseFollows(s, m);
      FollowsGrows(s, m, Close(s), CloseMoments(m, s.streams));
      GrowsDead(s, Close(s), CloseMoments(m, s.streams));
    } else {
      PrepareFollows(cfg.trim, s, m, r);
      ForksClose(s, r);
      BlockFollows(s, m, r, Prepare(cfg.trim, s, r), PrepareMoments(cfg.trim, s, m, r));
    }
  }

  lemma BlockFollows(s: Session, m: Moment, r: Result, p: Session, ms: seq<Moment>)
    requires Follows(s, m, p, ms) && p.alive && FromNode(r)
    requires r.pos.num <= p.st.head ==> p.streams == [] && !IsBulk(s, r)
    ensures var a := AddBlock(p, r, IsBulk(s, r)); var more := AddMoments(p, Last(m, ms), r, IsBulk(s, r));
      var last := if a.alive && !LongAgo(r) && r.large then CloseMoments(Last(Last(m, ms), more), a.streams) else [];
      var t := if a.alive && !LongAgo(r) && r.large then Close(a) else a;
      Grows(s, t, ms + more + last) && (t.alive ==> Fit(t, Last(m, ms + more + last)))
  {
    hide Fit, Follows, Grows, Close, CloseMoments, AddBlock, AddMoments, FromNode, IsBulk, LongAgo;
    FollowsFit(s, m, p, ms);
    var a, more := AddBlock(p, r, IsBulk(s, r)), AddMoments(p, Last(m, ms), r, IsBulk(s, r));
    AddFollows(p, Last(m, ms), r, IsBulk(s, r));
    if a.alive {
      FollowsTransitive(s, m, p, ms, a, more);
      FollowsFit(s, m, a, ms + more);
      LastOf(m, ms, more);
      if !LongAgo(r) && r.large {
        var last := CloseMoments(Last(m, ms + more), a.streams);
        CloseFollows(a, Last(m, ms + more));
        FollowsTransitive(s, m, a, ms + more, Close(a), last);
        FollowsGrows(s, m, Close(a), ms + more + last);
        FollowsFit(s, m, Close(a), ms + more + last);
      } else {
        assert ms + more + [] == ms + more;
        FollowsGrows(s, m, a, ms + more);
      }
    } else {
      FollowsGrows(s, m, p, ms);
      SameLogGrows(s, p, a, ms);
      assert ms + more + [] == ms;
    }
  }

  // ---------- whole runs ----------

  /** Image by image, a session's log and its moments. */
  ghost predicate Told(s: Session, ms: seq<Moment>)
  {
    |s.log| == |ms| && forall i :: 0 <= i < |ms| ==> Explains(s.log[i], ms[i])
  }

  lemma ToldGrows(s: Session, t: Session, ms: seq<Moment>, more: seq<Moment>)
    requires Told(s, ms) && Grows(s, t, more)
    ensures Told(t, ms + more)
  {
    hide Explains;
    forall i | 0 <= i < |ms + more| ensures Explains(t.log[i], (ms + more)[i]) {
      if i < |ms| {
        assert t.log[i] == s.log[i];
      } else {
        assert Explains(t.log[|s.log| + (i - |ms|)], more[i - |ms|]);
      }
    }
  }

  lemma {:induction false} RunTold(cfg: H.Settings, s: Session, ms: seq<Moment>, rs: seq<Result>)
    requires ms != [] && Told(s, ms) && Fit(s, ms[|ms| - 1]) && (forall i :: 0 <= i < |rs| ==> FromNode(rs[i]))
    ensures var t := Run(cfg, s, rs); var all := RunMoments(cfg, s, ms, rs);
      Told(t, all) && (t.alive ==> Fit(t, all[|all| - 1]))
    decreases |rs|
  {
    hide Told, Fit, Process, ProcessMoments, FromNode;
    if rs != [] {
      var init, r := rs[..|rs| - 1], rs[|rs| - 1];
      RunTold(cfg, s, ms, init);
      var t, all := Run(cfg, s, init), RunMoments(cfg, s, ms, init);
      if t.alive {
        var more := ProcessMoments(cfg, t, all[|all| - 1], r);
        ProcessFollows(cfg, t, all[|all| - 1], r);
        ToldGrows(t, Process(cfg, t, r), all, more);
      } else {
        DeadSays(cfg, t, all[|all| - 1], r);
        assert all + [] == all;
      }
    }
  }

  lemma DeadSays(cfg: H.Settings, s: Session, m: Moment, r: Result)
    requires !s.alive
    ensures Process(cfg, s, r) == s && ProcessMoments(cfg, s, m, r) == []
  {
  }

  /** The two images of a restart. */
  function OpenMoments(im: Image): seq<Moment>
  {
    [Moment(im.rows, {}, {}), Moment(UpTo(im.rows, im.status.head), {}, {})]
  }

  lemma OpenTold(im: Image)
    requires StatusOk(im.status, im.received)
    ensures Told(Open(im), OpenMoments(im)) && Fit(Open(im), OpenMoments(im)[1])
  {
    OpenRestores(im);
    NothingPending();
    SortedNone();
  }

  // ---------- block by block ----------

  lemma ClosedOwesNone(s: Session, m: Moment)
    requires Fit(s, m)
    ensures Last(m, CloseMoments(m, s.streams)) == if s.streams == [] then m else Moment(m.due, {}, {})
    ensures s.streams == [] ==> m.owed == {}
  {
    NothingPending();
  }

  /** What is due after the trim before a block, if there is one. */
  ghost function Kept(trim: bool, s: Session, due: set<Row>): set<Row>
  {
    var end := if s.st.head < s.st.irreversible then s.st.head else s.st.irreversible;
    if trim && s.streams == [] && s.st.first < end then TrimHistory(due, s.st.first, end) else due
  }

  lemma AfterPrepare(trim: bool, s: Session, m: Moment, r: Result)
    requires Fit(s, m)
    ensures var last := Last(m, PrepareMoments(trim, s, m, r));
      && last.due == Kept(trim, Closed(s, r), m.due)
      && last.owed == if MustClose(s, r) then {} else m.owed
  {
    hide Close, CloseMoments, TrimHistory, Fit, MustClose;
    ClosedOwesNone(s, m);
    CloseFollows(s, m);
    var c, ms := Closed(s, r), ClosedMoments(s, m, r);
    if MustClose(s, r) { FollowsFit(s, m, c, ms); }
    LastOf(m, ms, TrimMoments(trim, c, Last(m, ms)));
  }

  lemma AfterAdd(s: Session, m: Moment, r: Result, bulk: bool)
    requires AddBlock(s, r, bulk).alive && s.alive && m.open == Pending(s.streams)
    ensures var last := Last(m, AddMoments(s, m, r, bulk));
      && last.due == (if r.pos.num <= s.st.head then Below(m.due, r.pos.num) else m.due) + SetOf(r.rows)
      && last.owed == if r.pos.num <= s.st.head then SetOf(r.rows) else if bulk then m.owed else {}
  {
    hide AddAll, FlushMoments, Finish, Cut;
  }

  /** A block's rows are due with it, and of a fork those from the block on no longer are; of the rows in streams only
      those of a fork are owed, until the streams are closed. */
  lemma AfterBlock(cfg: H.Settings, s: Session, m: Moment, r: Result)
    requires Fit(s, m) && s.alive && FromNode(r) && Process(cfg, s, r).alive
    ensures var last := Last(m, ProcessMoments(cfg, s, m, r)); var kept := Kept(cfg.trim, Closed(s, r), m.due);
      && last.due == (if r.pos.num <= s.st.head then Below(kept, r.pos.num) else kept) + SetOf(r.rows)
      && last.owed == if !LongAgo(r) && r.large then {} else if r.pos.num <= s.st.head then SetOf(r.rows)
                      else if MustClose(s, r) then {} else m.owed
  {
    hide Close, FromNode, LongAgo, Prepare, PrepareMoments, AddBlock, AddMoments, CloseMoments, Fit, Kept, SetOf, Below;
    var p, ms := Prepare(cfg.trim, s, r), PrepareMoments(cfg.trim, s, m, r);
    var bulk := IsBulk(s, r);
    PrepareFollows(cfg.trim, s, m, r);
    AfterPrepare(cfg.trim, s, m, r);
    FollowsFit(s, m, p, ms);
    ForksClose(s, r);
    var b, a, more := Last(m, ms), AddBlock(p, r, bulk), AddMoments(p, Last(m, ms), r, bulk);
    AddFollows(p, b, r, bulk);
    FollowsFit(p, b, a, more);
    FitOpen(p, b);
    AfterAdd(p, b, r, bulk);
    LastOf(m, ms, more);
    ClosedOwesNone(a, Last(b, more));
    LastOf(m, ms + more, CloseMoments(Last(b, more), a.streams));
    assert ms + more + [] == ms + more;
  }

  lemma FitOpen(s: Session, m: Moment)
    requires Fit(s, m)
    ensures m.open == Pending(s.streams)
  {
  }

  /** One block's transaction, from a session whose image can be restored: so can the new image, exactly if the block
      switches no forks or has no rows. */
  lemma AddBlockExactly(s: Session, m: Moment, r: Result, bulk: bool)
    requires Fit(s, m) && s.alive && FromNode(r) && (r.pos.num <= s.st.head ==> s.streams == [] && !bulk)
    requires m.owed == {} && HeadThere(Now(s)) && AddBlock(s, r, bulk).alive
    ensures var a := AddBlock(s, r, bulk);
      Restores(Now(a), Now(a).rows + Pending(a.streams)) <==> s.st.head < r.pos.num || r.rows == []
  {
    hide Fit, AddMoments, Restores, Pending, FlushMoments, AddAll, FlushLog, Cut;
    var a, ms := AddBlock(s, r, bulk), AddMoments(s, m, r, bulk);
    AddFollows(s, m, r, bulk);
    FollowsFit(s, m, a, ms);
    FitOpen(s, m);
    FitOpen(a, Last(m, ms));
    AfterAdd(s, m, r, bulk);
    FitExplains(a, Last(m, ms));
    AddKeepsHead(s, m, r, bulk);
    RestoresExactly(Now(a), Last(m, ms).due, Last(m, ms).open);
    assert r.rows != [] ==> r.rows[0] in SetOf(r.rows);
  }

  lemma FitExplains(s: Session, m: Moment)
    requires Fit(s, m)
    ensures Explains(Now(s), m)
  {
  }

  lemma AddKeepsHead(s: Session, m: Moment, r: Result, bulk: bool)
    requires Fit(s, m) && HeadThere(Now(s)) && FromNode(r) && (r.pos.num <= s.st.head ==> !bulk)
    ensures HeadThere(Now(AddBlock(s, r, bulk))) || !AddBlock(s, r, bulk).alive
  {
    hide AddAll, FlushMoments, Explains;
    if !bulk || r.pos.num <= s.st.head {
    } else {
      FitExplains(s, m);
    }
  }

  /** The rows of the last switch of forks, until its streams have been closed. */
  ghost function Owed(cfg: H.Settings, s: Session, rs: seq<Result>): set<Row>
  {
    if rs == [] then {} else
      var init, r := rs[..|rs| - 1], rs[|rs| - 1];
      if !LongAgo(r) && r.large then {} else if r.pos.num <= Run(cfg, s, init).st.head then SetOf(r.rows)
      else if MustClose(Run(cfg, s, init), r) then {} else Owed(cfg, s, init)
  }

  lemma {:induction false} RunOwes(cfg: H.Settings, s: Session, ms: seq<Moment>, rs: seq<Result>)
    requires ms != [] && Told(s, ms) && Fit(s, ms[|ms| - 1]) && (forall i :: 0 <= i < |rs| ==> FromNode(rs[i]))
    requires ms[|ms| - 1].owed == {} && Run(cfg, s, rs).alive
    ensures var all := RunMoments(cfg, s, ms, rs); all[|all| - 1].owed == Owed(cfg, s, rs)
    decreases |rs|
  {
    hide Told, Fit, Process, ProcessMoments, FromNode, MustClose, LongAgo, Kept, Closed;
    if rs != [] {
      var init, r := rs[..|rs| - 1], rs[|rs| - 1];
      var t, all := Run(cfg, s, init), RunMoments(cfg, s, ms, init);
      RunTold(cfg, s, ms, init);
      if t.alive {
        RunOwes(cfg, s, ms, init);
        AfterBlock(cfg, t, all[|all| - 1], r);
      } else {
        DeadSays(cfg, t, all[|all| - 1], r);
      }
    }
  }

  // ---------- the stored head ----------

  /** A trim loses the received block of the stored head, which a restart needs, exactly if that head has been passed by
      blocks without rows, far enough for the trim to end after it. */
  lemma TrimLosesHead(s: Session, m: Moment)
    requires Fit(s, m) && HeadThere(Now(s)) && s.st.first <= Now(s).status.head && Now(s).status.head != 0
    ensures var end := if s.st.head < s.st.irreversible then s.st.head else s.st.irreversible;
      HeadThere(Now(Trim(s))) <==> end <= Now(s).status.head
  {
    hide TrimHistory;
  }

  /** The blocks of both heads are there, and before a trim they are the same. */
  ghost predicate HeadSafe(trim: bool, s: Session)
  {
    && HeadThere(Now(s)) && (s.st.head == 0 || s.st.head in Now(s).received)
    && (trim && s.streams == [] ==> Now(s).status.head == s.st.head)
  }

  ghost predicate HeadsSince(s: Session, t: Session)
  {
    s.log <= t.log && forall i :: |s.log| <= i < |t.log| ==> HeadThere(t.log[i])
  }

  lemma HeadsTransitive(s: Session, t: Session, u: Session)
    requires HeadsSince(s, t) && HeadsSince(t, u)
    ensures HeadsSince(s, u)
  {
    hide HeadThere;
    forall i | |s.log| <= i < |u.log| ensures HeadThere(u.log[i]) {
      if i < |t.log| { assert HeadThere(t.log[i]); }
    }
  }

  lemma FlushHeads(s: Session)
    requires HeadThere(Now(s))
    ensures HeadsSince(s, Flush(s)) && Now(Flush(s)) == Now(s).(rows := Now(Flush(s)).rows)
  {
    hide Pending, FlushLog;
    FlushAdds(Now(s), s.streams);
    var f := Flush(s);
    forall i | |s.log| <= i < |f.log| ensures HeadThere(f.log[i]) && f.log[i] == Now(s).(rows := f.log[i].rows) {
      assert f.log[i] == FlushLog(Now(s), s.streams)[i - |s.log|];
    }
  }

  lemma CloseHeads(trim: bool, s: Session)
    requires HeadSafe(trim, s)
    ensures var c := Close(s); HeadSafe(trim, c) && HeadsSince(s, c) && c.alive == s.alive && c.st == s.st
  {
    hide Flush;
    FlushHeads(s);
    FlushEmpties(s);
    if s.streams != [] { HeadsTransitive(s, Flush(s), Close(s)); }
  }

  lemma PrepareHeads(trim: bool, s: Session, r: Result)
    requires HeadSafe(trim, s)
    ensures var p := Prepare(trim, s, r); HeadSafe(trim, p) && HeadsSince(s, p) && p.alive == s.alive
  {
    hide Close, TrimHistory, MustClose;
    CloseHeads(trim, s);
    var c := Closed(s, r);
    if trim && c.streams == [] { HeadsTransitive(s, c, Prepare(trim, s, r)); }
  }

  lemma {:induction false} SomeStream(streams: seq<Stream>, rows: seq<Row>)
    requires rows != []
    ensures AddAll(streams, rows) != []
  {
    hide Less;
  }

  lemma AddHeads(trim: bool, s: Session, r: Result, bulk: bool)
    requires HeadSafe(trim, s) && (trim ==> r.rows != []) && (r.pos.num <= s.st.head ==> !bulk)
    requires 1 <= r.pos.num
    ensures var a := AddBlock(s, r, bulk); HeadsSince(s, a) && (a.alive ==> HeadSafe(trim, a))
  {
    hide Flush, AddAll, Below;
    var forks := r.pos.num <= s.st.head;
    var st0 := if forks then CutStatus(Now(s), s.st, r.pos.num) else s.st;
    if Links(st0, r) {
      var a := s.(streams := AddAll(s.streams, r.rows), st := Advanced(st0, r));
      if r.rows != [] { SomeStream(s.streams, r.rows); }
      FlushHeads(a);
      FlushEmpties(a);
      if !bulk && !forks { HeadsTransitive(s, Flush(a), AddBlock(s, r, bulk)); }
    }
  }

  lemma ProcessHeads(cfg: H.Settings, s: Session, r: Result)
    requires HeadSafe(cfg.trim, s) && (cfg.trim ==> r.rows != []) && 1 <= r.pos.num
    ensures var p := Process(cfg, s, r); HeadsSince(s, p) && (p.alive ==> HeadSafe(cfg.trim, p))
  {
    hide Close, Prepare, AddBlock, HeadSafe, HeadThere, IsBulk, LongAgo;
    if !s.alive {
    } else if cfg.stopBefore != 0 && r.pos.num >= cfg.stopBefore {
      CloseHeads(cfg.trim, s);
    } else {
      var p := Prepare(cfg.trim, s, r);
      PrepareHeads(cfg.trim, s, r);
      ForksClose(s, r);
      SameHead(cfg.trim, s, r);
      AddHeads(cfg.trim, p, r, IsBulk(s, r));
      var a := AddBlock(p, r, IsBulk(s, r));
      HeadsTransitive(s, p, a);
      if a.alive && !LongAgo(r) && r.large {
        CloseHeads(cfg.trim, a);
        HeadsTransitive(s, a, Close(a));
      }
    }
  }

  lemma SameHead(trim: bool, s: Session, r: Result)
    ensures Prepare(trim, s, r).st.head == s.st.head
  {
    hide Flush, TrimHistory, MustClose;
    FlushEmpties(s);
  }

  /** Without trims, or if every block has a row, the stored head's block is always there. */
  lemma {:induction false} RunHeads(cfg: H.Settings, s: Session, rs: seq<Result>)
    requires HeadSafe(cfg.trim, s)
      && (forall i :: 0 <= i < |rs| ==> 1 <= rs[i].pos.num && (cfg.trim ==> rs[i].rows != []))
    ensures var t := Run(cfg, s, rs); HeadsSince(s, t) && (t.alive ==> HeadSafe(cfg.trim, t))
    decreases |rs|
  {
    hide Process, HeadSafe, HeadThere;
    if rs != [] {
      var init := rs[..|rs| - 1];
      RunHeads(cfg, s, init);
      var t := Run(cfg, s, init);
      if t.alive {
        ProcessHeads(cfg, t, rs[|rs| - 1]);
        HeadsTransitive(s, t, Run(cfg, s, rs));
      } else {
        DeadProcess(cfg, t, rs[|rs| - 1]);
      }
    }
  }

  lemma DeadProcess(cfg: H.Settings, s: Session, r: Result)
    requires !s.alive
    ensures Process(cfg, s, r) == s
  {
  }

  lemma OpenHeads(trim: bool, im: Image)
    requires StatusOk(im.status, im.received)
    ensures HeadSafe(trim, Open(im)) && forall i :: 0 <= i < |Open(im).log| ==> HeadThere(Open(im).log[i])
  {
    OpenRestores(im);
  }

  // ---------- stops ----------

  /** The main result about stops, with forks and trims: for every image of every run, a restart leaves exactly the due
      rows of the blocks up to the stored head, and goes on from there, if and only if the stored head's block has been
      received and no row of a switched fork is still in a stream. */
  lemma StopAnywhereExactly(cfg: H.Settings, im: Image, rs: seq<Result>, n: nat)
    requires StatusOk(im.status, im.received) && (forall i :: 0 <= i < |rs| ==> FromNode(rs[i]))
    requires n < |Run(cfg, Open(im), rs).log|
    ensures var d := Run(cfg, Open(im), rs).log[n];
      var ms := RunMoments(cfg, Open(im), OpenMoments(im), rs);
      && |ms| == |Run(cfg, Open(im), rs).log|
      && (Restores(d, ms[n].due) <==> HeadThere(d) && ms[n].owed == {})
      && (Restores(d, ms[n].due) ==> StatusOk(d.status, d.received))
      && (!cfg.trim || (forall i :: 0 <= i < |rs| ==> rs[i].rows != []) ==> HeadThere(d))
  {
    hide Run, RunMoments, Open, Restores, Fit, HeadThere;
    OpenTold(im);
    var ms := RunMoments(cfg, Open(im), OpenMoments(im), rs);
    RunTold(cfg, Open(im), OpenMoments(im), rs);
    if !cfg.trim || (forall i :: 0 <= i < |rs| ==> rs[i].rows != []) {
      OpenHeads(cfg.trim, im);
      RunHeads(cfg, Open(im), rs);
    }
    assert Explains(Run(cfg, Open(im), rs).log[n], ms[n]);
    RestoresExactly(Run(cfg, Open(im), rs).log[n], ms[n].due, ms[n].open);
  }

  /** Between blocks the condition is about the last switch of forks alone: it had no rows, or its streams have been
      closed since. */
  lemma StopBetweenBlocks(cfg: H.Settings, im: Image, rs: seq<Result>)
    requires StatusOk(im.status, im.received) && (forall i :: 0 <= i < |rs| ==> FromNode(rs[i]))
    requires Run(cfg, Open(im), rs).alive
    ensures var s := Run(cfg, Open(im), rs);
      Restores(Now(s), Now(s).rows + Pending(s.streams)) <==> HeadThere(Now(s)) && Owed(cfg, Open(im), rs) == {}
  {
    hide Run, RunMoments, Open, Restores, Fit, HeadThere, Owed, Explains, Pending;
    OpenTold(im);
    var s, ms := Run(cfg, Open(im), rs), RunMoments(cfg, Open(im), OpenMoments(im), rs);
    var m := ms[|ms| - 1];
    RunTold(cfg, Open(im), OpenMoments(im), rs);
    RunOwes(cfg, Open(im), OpenMoments(im), rs);
    FitExplains(s, m);
    FitOpen(s, m);
    OwedDecides(Now(s), m);
    RestoresExactly(Now(s), m.due, m.open);
  }

  lemma OwedDecides(im: Image, m: Moment)
    requires Explains(im, m)
    ensures Wellformed(im.status, im.received) && im.rows + m.open == m.due && im.rows !! m.open
    ensures m.owed == {} <==> forall r :: r in m.open ==> im.status.head < r.block
  {
    if r :| r in m.owed {
      assert r in m.open;
    }
  }

  ghost predicate NoForks(cfg: H.Settings, s: Session, rs: seq<Result>)
  {
    rs == [] ||
    (NoForks(cfg, s, rs[..|rs| - 1]) &&
     var m := Run(cfg, s, rs[..|rs| - 1]); m.alive ==> m.st.head < rs[|rs| - 1].pos.num)
  }

  predicate NoneOwed(ms: seq<Moment>)
  {
    forall i :: 0 <= i < |ms| ==> ms[i].owed == {}
  }

  lemma {:induction false} FlushOwesNone(m: Moment, streams: seq<Stream>)
    requires m.owed == {}
    ensures NoneOwed(FlushMoments(m, streams))
    decreases |streams|
  {
    if streams != [] {
      FlushOwesNone(m, streams[1..]);
    }
  }

  lemma CloseOwesNone(m: Moment, streams: seq<Stream>)
    requires m.owed == {}
    ensures var ms := CloseMoments(m, streams); NoneOwed(ms) && Last(m, ms).owed == {}
  {
    hide FlushMoments;
    FlushOwesNone(m, streams);
  }

  lemma AddOwesNone(s: Session, m: Moment, r: Result, bulk: bool)
    requires m.owed == {} && s.st.head < r.pos.num
    ensures var ms := AddMoments(s, m, r, bulk); NoneOwed(ms) && Last(m, ms).owed == {}
  {
    hide FlushMoments, AddAll;
    FlushOwesNone(m.(due := m.due + SetOf(r.rows)), AddAll(s.streams, r.rows));
  }

  lemma ProcessOwesNone(cfg: H.Settings, s: Session, m: Moment, r: Result)
    requires m.owed == {} && s.st.head < r.pos.num
    ensures NoneOwed(ProcessMoments(cfg, s, m, r))
  {
    hide CloseMoments, AddMoments, TrimHistory, Prepare, AddBlock, Closed, MustClose;
    CloseOwesNone(m, s.streams);
    SameHead(cfg.trim, s, r);
    var p, ms := Prepare(cfg.trim, s, r), PrepareMoments(cfg.trim, s, m, r);
    AddOwesNone(p, Last(m, ms), r, IsBulk(s, r));
    var a, more := AddBlock(p, r, IsBulk(s, r)), AddMoments(p, Last(m, ms), r, IsBulk(s, r));
    CloseOwesNone(Last(Last(m, ms), more), a.streams);
  }

  lemma {:induction false} RunOwesNone(cfg: H.Settings, s: Session, ms: seq<Moment>, rs: seq<Result>)
    requires ms != [] && NoneOwed(ms) && NoForks(cfg, s, rs)
    ensures NoneOwed(RunMoments(cfg, s, ms, rs))
    decreases |rs|
  {
    hide ProcessMoments, Process;
    if rs != [] {
      var init := rs[..|rs| - 1];
      RunOwesNone(cfg, s, ms, init);
      var t, all := Run(cfg, s, init), RunMoments(cfg, s, ms, init);
      if t.alive {
        ProcessOwesNone(cfg, t, all[|all| - 1], rs[|rs| - 1]);
      } else {
        DeadSays(cfg, t, all[|all| - 1], rs[|rs| - 1]);
      }
    }
  }

  /** With no fork: wherever a run stops between two commits, a restart leaves exactly the due rows, all of them, of the
      blocks up to the committed head, and can go on from there. */
  lemma StopAnywhere(cfg: H.Settings, im: Image, rs: seq<Result>, n: nat)
    requires StatusOk(im.status, im.received) && (forall i :: 0 <= i < |rs| ==> FromNode(rs[i]))
    requires NoForks(cfg, Open(im), rs) && n < |Run(cfg, Open(im), rs).log|
    requires !cfg.trim || (forall i :: 0 <= i < |rs| ==> rs[i].rows != [])
    ensures var d := Run(cfg, Open(im), rs).log[n];
      var ms := RunMoments(cfg, Open(im), OpenMoments(im), rs);
      |ms| == |Run(cfg, Open(im), rs).log| && Restores(d, ms[n].due) && StatusOk(d.status, d.received)
  {
    hide Run, RunMoments, Open, Restores, NoForks;
    StopAnywhereExactly(cfg, im, rs, n);
    RunOwesNone(cfg, Open(im), OpenMoments(im), rs);
  }

  // ---------- a block in full ----------

  /** The status as it is committed: nothing is irreversible after the head. */
  predicate IsStored(stored: H.Status, st: H.Status)
  {
    && stored.head == st.head && stored.headId == st.headId && stored.first == st.first
    && stored.irreversible == (if st.irreversible < st.head then st.irreversible else st.head)
    && stored.irreversibleId == if st.irreversible < st.head then st.irreversibleId else st.headId
  }

  /** The block before, if it has been received and a trim before this block leaves it. */
  ghost function IdBefore(cfg: H.Settings, s: Session, num: u32): H.Id
    requires 1 <= num
  {
    var end := if s.st.head < s.st.irreversible then s.st.head else s.st.irreversible;
    if num > s.st.head then s.st.headId
    else if num - 1 in Now(s).received && !(cfg.trim && s.st.first <= num - 1 < end) then Now(s).received[num - 1]
    else H.ZERO
  }

  lemma CloseIs(s: Session)
    ensures var c := Close(s);
      && c.streams == [] && c.st == s.st && c.alive == s.alive
      && Now(c) == (if s.streams == [] then Now(s)
                    else Now(s).(rows := Now(s).rows + Pending(s.streams), status := H.Clamp(s.st)))
  {
    hide FlushLog, Pending, H.Clamp;
    FlushAdds(Now(s), s.streams);
    if s.streams != [] {
      var f := Flush(s);
      assert f.log[|f.log| - 1] == FlushLog(Now(s), s.streams)[|s.streams| - 1];
    }
  }

  lemma PrepareIs(trim: bool, s: Session, r: Result)
    ensures var p := Prepare(trim, s, r);
      var end := if s.st.head < s.st.irreversible then s.st.head else s.st.irreversible;
      var trims := trim && (MustClose(s, r) || s.streams == []) && s.st.first < end;
      && p.streams == (if MustClose(s, r) then [] else s.streams) && p.alive == s.alive
      && p.st == (if trims then s.st.(first := end) else s.st)
      && Now(p).status == (if MustClose(s, r) && s.streams != [] then H.Clamp(s.st) else Now(s).status)
      && Now(p).received == if trims then TrimReceived(Now(s).received, s.st.first, end) else Now(s).received
  {
    hide Close, TrimHistory, MustClose, H.Clamp;
    CloseIs(s);
  }

  /** A session goes on exactly if the block is not the one to stop before and connects to the block before it. */
  lemma BlockConnects(cfg: H.Settings, s: Session, r: Result)
    requires s.alive && 1 <= r.pos.num
    ensures var before := IdBefore(cfg, s, r.pos.num);
      Process(cfg, s, r).alive <==>
        && !(cfg.stopBefore != 0 && r.pos.num >= cfg.stopBefore)
        && (before == H.ZERO || (r.prev.Some? && r.prev.value.id == before))
  {
    hide Close, Prepare, Finish, TrimReceived, AddAll, LongAgo;
    PrepareIs(cfg.trim, s, r);
    ForksClose(s, r);
    var p := Prepare(cfg.trim, s, r);
    var st := if r.pos.num <= s.st.head then CutStatus(Now(p), p.st, r.pos.num) else p.st;
    FinishIs(p.(streams := AddAll(p.streams, r.rows), st := Advanced(st, r)), r, IsBulk(s, r), r.pos.num <= s.st.head);
    CloseIs(AddBlock(p, r, IsBulk(s, r)));
    if r.pos.num <= s.st.head { TrimmedBefore(cfg, s, r.pos.num); }
  }

  lemma TrimmedBefore(cfg: H.Settings, s: Session, num: u32)
    requires 1 <= num <= s.st.head
    ensures var end := if s.st.head < s.st.irreversible then s.st.head else s.st.irreversible;
      var trims := cfg.trim && s.st.first < end;
      var left := if trims then TrimReceived(Now(s).received, s.st.first, end) else Now(s).received;
      IdBefore(cfg, s, num) == if num - 1 in left then left[num - 1] else H.ZERO
  {
  }

  lemma FinishIs(a: Session, r: Result, bulk: bool, forks: bool)
    ensures var f := Finish(a, r, bulk, forks);
      && f.alive == a.alive && f.st == a.st && f.streams == (if !bulk && !forks then [] else a.streams)
      && Now(f).status == (if bulk then Now(a).status else H.Clamp(a.st))
      && r.pos.num in Now(f).received && Now(f).received[r.pos.num] == r.pos.id
  {
    hide FlushLog, Pending, H.Clamp, Below;
    FlushAdds(Now(a), a.streams);
    if a.streams != [] {
      var f := Flush(a);
      assert f.log[|f.log| - 1] == FlushLog(Now(a), a.streams)[|a.streams| - 1];
    }
  }

  /** Where a block that is taken leaves the session. Near the irreversible block all is committed, but for the rows of
      a fork; long before it rows stay in the streams, which are closed before every 200th block; and a block with very
      many rows is committed at once. */
  lemma BlockCommits(cfg: H.Settings, s: Session, r: Result)
    requires s.alive && 1 <= r.pos.num && Process(cfg, s, r).alive
    ensures var p := Process(cfg, s, r);
      var long, forks := (r.pos.num + 4) % 0x1_0000_0000 < r.irreversible.num, r.pos.num <= s.st.head;
      && p.st.head == r.pos.num && p.st.headId == r.pos.id
      && p.st.irreversible == r.irreversible.num && p.st.irreversibleId == r.irreversible.id
      && r.pos.num in Now(p).received && Now(p).received[r.pos.num] == r.pos.id
      && if forks then
           IsStored(Now(p).status, p.st) && p.streams == if !long && r.large then [] else AddAll([], r.rows)
         else if long then
           && p.streams == AddAll(if r.pos.num % 200 == 0 then [] else s.streams, r.rows)
           && if r.pos.num % 200 == 0 && s.streams != [] then IsStored(Now(p).status, s.st)
              else Now(p).status == Now(s).status
         else p.streams == [] && (!r.large || r.rows != [] ==> IsStored(Now(p).status, p.st))
  {
    hide Close, Prepare, Finish, TrimReceived, AddAll, H.Clamp, IsStored, CutStatus;
    PrepareIs(cfg.trim, s, r);
    ForksClose(s, r);
    var bulk, forks := IsBulk(s, r), r.pos.num <= s.st.head;
    var p := Prepare(cfg.trim, s, r);
    var st := if forks then CutStatus(Now(p), p.st, r.pos.num) else p.st;
    var a := p.(streams := AddAll(p.streams, r.rows), st := Advanced(st, r));
    FinishIs(a, r, bulk, forks);
    CloseIs(AddBlock(p, r, bulk));
    ClampIsStored(a.st);
    ClampIsStored(s.st);
    if r.rows != [] { SomeStream(p.streams, r.rows); }
  }

  lemma ClampIsStored(st: H.Status)
    ensures IsStored(H.Clamp(st), st)
  {
  }

  /** A stop before a block commits all rows, and then the status. */
  lemma StopCommits(cfg: H.Settings, s: Session, r: Result)
    requires s.alive && cfg.stopBefore != 0 && r.pos.num >= cfg.stopBefore
    ensures var p := Process(cfg, s, r);
      && !p.alive && Now(p).rows == Now(s).rows + Pending(s.streams) && Now(p).received == Now(s).received
      && (s.streams != [] ==> IsStored(Now(p).status, s.st))
  {
    hide Close, H.Clamp;
    CloseIs(s);
    ClampIsStored(s.st);
    NothingPending();
  }
}
