/** The chain of received blocks in the PostgreSQL database, over every run with forks, trims and restarts. */
module PgChains {
  import opened Bytes
  import opened Store
  import opened KeyCodec
  import H = History
  import R = Runs
  import opened PgHistory
  import opened PgRuns

  ghost predicate LinkAt(tree: R.Tree, received: map<u32, H.Id>, low: u32, b: u32)
  {
    && b in received && received[b] != H.ZERO && tree.number(received[b]) == b
    && (low < b ==> H.Before(b) in received && received[H.Before(b)] == tree.parent(received[b]))
  }

  /** Exactly the blocks from low to the head have been received, each the parent of the next, up to the head. */
  ghost predicate Chain(tree: R.Tree, received: map<u32, H.Id>, low: u32, st: H.Status)
  {
    if st.head == 0 then st.headId == H.ZERO && st.first == 0 && low == 0 && received == map[]
    else
      && 1 <= st.first <= low <= st.head < 0xffff_ffff
      && (forall b: u32 :: b in received <==> low <= b <= st.head) && received[st.head] == st.headId
      && (forall b: u32 :: low <= b <= st.head ==> LinkAt(tree, received, low, b))
  }

  /** The received blocks are a chain up to the session's head. In a session that nothing has interrupted since its
      first block, or since a status was written after the last trim, it starts exactly at first. */
  ghost predicate Chained(tree: R.Tree, received: map<u32, H.Id>, st: H.Status, exact: bool)
  {
    exists low: u32 :: Chain(tree, received, low, st) && (exact ==> low == st.first)
  }

  /** What a restart from the image has to go on from; nothing is irreversible after the head. */
  ghost predicate Lasting(tree: R.Tree, im: Image)
  {
    && im.status.irreversible <= im.status.head
    && (HeadThere(im) ==> Chained(tree, ReceivedUpTo(im.received, im.status.head), im.status, false))
  }

  /** What holds between blocks. */
  ghost predicate Live(tree: R.Tree, s: Session, exact: bool)
  {
    s.alive && Chained(tree, Now(s).received, s.st, exact) && Lasting(tree, Now(s)) && Now(s).status.head <= s.st.head
  }

  ghost predicate LastingSince(tree: R.Tree, s: Session, t: Session)
  {
    s.log <= t.log && forall i :: |s.log| <= i < |t.log| ==> Lasting(tree, t.log[i])
  }

  lemma LastingTransitive(tree: R.Tree, s: Session, t: Session, u: Session)
    requires LastingSince(tree, s, t) && LastingSince(tree, t, u)
    ensures LastingSince(tree, s, u)
  {
    hide Lasting;
    forall i | |s.log| <= i < |u.log| ensures Lasting(tree, u.log[i]) {
      if i < |t.log| { assert Lasting(tree, t.log[i]); }
    }
  }

  // ---------- the chain ----------

  lemma ClampChain(tree: R.Tree, received: map<u32, H.Id>, st: H.Status, exact: bool)
    requires Chained(tree, received, st, exact)
    ensures Chained(tree, received, H.Clamp(st), exact)
  {
    var low: u32 :| Chain(tree, received, low, st) && (exact ==> low == st.first);
    assert Chain(tree, received, low, H.Clamp(st));
  }

  /** Up to the head there is nothing to cut. */
  lemma ChainUpTo(tree: R.Tree, received: map<u32, H.Id>, st: H.Status, exact: bool)
    requires Chained(tree, received, st, exact)
    ensures ReceivedUpTo(received, st.head) == received
  {
    hide LinkAt;
  }

  lemma CutChain(tree: R.Tree, im: Image, st: H.Status, num: u32, exact: bool)
    requires Chained(tree, im.received, st, exact) && 1 <= num <= st.head
    ensures Chained(tree, ReceivedBelow(im.received, num), CutStatus(im, st, num), exact)
    ensures CutStatus(im, st, num).head < num
  {
    var low: u32 :| Chain(tree, im.received, low, st) && (exact ==> low == st.first);
    var left, st' := ReceivedBelow(im.received, num), CutStatus(im, st, num);
    if low < num {
      forall b: u32 | low <= b <= st'.head ensures LinkAt(tree, left, low, b) {
        assert LinkAt(tree, im.received, low, b);
      }
      assert Chain(tree, left, low, st');
    } else {
      assert left == map[];
      assert Chain(tree, left, 0, st');
    }
  }

  /** Ids say numbers and predecessors as in the tree. */
  ghost predicate Faithful(tree: R.Tree, r: Result)
  {
    && 1 <= r.pos.num < 0xffff_ffff && r.pos.id != H.ZERO && tree.number(r.pos.id) == r.pos.num
    && (r.prev.Some? ==> r.prev.value.id == tree.parent(r.pos.id))
    && tree.number(tree.parent(r.pos.id)) + 1 == r.pos.num
  }

  lemma GrowChain(tree: R.Tree, received: map<u32, H.Id>, st: H.Status, r: Result, exact: bool)
    requires Chained(tree, received, st, exact) && st.head < r.pos.num && Links(st, r) && Faithful(tree, r)
    ensures Chained(tree, received[r.pos.num := r.pos.id], Advanced(st, r), exact)
  {
    var low: u32 :| Chain(tree, received, low, st) && (exact ==> low == st.first);
    var num, more, st' := r.pos.num, received[r.pos.num := r.pos.id], Advanced(st, r);
    if st.head == 0 {
      assert Chain(tree, more, num, st');
    } else {
      assert LinkAt(tree, received, low, st.head);
      assert num == st.head + 1;
      forall b: u32 | low <= b <= num ensures LinkAt(tree, more, low, b) {
        if b < num { assert LinkAt(tree, received, low, b); }
      }
      assert Chain(tree, more, low, st');
    }
  }

  lemma TrimChain(tree: R.Tree, received: map<u32, H.Id>, st: H.Status, end: u32, exact: bool)
    requires Chained(tree, received, st, exact) && st.first < end <= st.head
    ensures Chained(tree, TrimReceived(received, st.first, end), st.(first := end), exact)
  {
    var low: u32 :| Chain(tree, received, low, st) && (exact ==> low == st.first);
    var left, low' := TrimReceived(received, st.first, end), if low < end then end else low;
    forall b: u32 | low' <= b <= st.head ensures LinkAt(tree, left, low', b) {
      assert LinkAt(tree, received, low, b);
    }
    assert Chain(tree, left, low', st.(first := end));
  }

  // ---------- images ----------

  /** A trim leaves behind what a restart needs, unless it takes the stored head's block. */
  lemma TrimLasts(tree: R.Tree, im: Image, rows: set<Row>, st: H.Status, end: u32, exact: bool)
    requires Lasting(tree, im) && Chained(tree, im.received, st, exact) && st.first < end <= st.head
    requires im.status.head <= st.head
    ensures Lasting(tree, im.(rows := rows, received := TrimReceived(im.received, st.first, end)))
  {
    var left := TrimReceived(im.received, st.first, end);
    var im' := im.(rows := rows, received := left);
    var h := im.status.head;
    if HeadThere(im') {
      var low: u32 :| Chain(tree, ReceivedUpTo(im.received, h), low, im.status);
      var low' := if low < end then end else low;
      if h == 0 {
        assert ReceivedUpTo(left, h) == map[] by {
          assert forall b :: b in ReceivedUpTo(left, h) ==> b in ReceivedUpTo(im.received, h);
        }
        assert Chain(tree, ReceivedUpTo(left, h), 0, im.status);
      } else {
        LowFirst(tree, im.received, st, exact);
        forall b: u32 ensures b in ReceivedUpTo(left, h) <==> low' <= b <= h {
          assert b in ReceivedUpTo(im.received, h) <==> low <= b <= h;
        }
        forall b: u32 | low' <= b <= h ensures LinkAt(tree, ReceivedUpTo(left, h), low', b) {
          assert LinkAt(tree, ReceivedUpTo(im.received, h), low, b);
        }
        assert Chain(tree, ReceivedUpTo(left, h), low', im.status);
      }
    }
  }

  lemma LowFirst(tree: R.Tree, received: map<u32, H.Id>, st: H.Status, exact: bool)
    requires Chained(tree, received, st, exact)
    ensures forall b: u32 :: b in received ==> st.first <= b <= st.head
  {
    hide LinkAt;
  }

  /** The status of a session at its head lasts with the chain. */
  lemma StatusLasts(tree: R.Tree, im: Image, st: H.Status, exact: bool)
    requires Chained(tree, im.received, st, exact) && im.status == H.Clamp(st)
    ensures Lasting(tree, im)
  {
    hide Chain;
    ChainUpTo(tree, im.received, st, exact);
    ClampChain(tree, im.received, st, exact);
    var low: u32 :| Chain(tree, im.received, low, im.status) && (exact ==> low == im.status.first);
  }

  lemma SameLasts(tree: R.Tree, im: Image, im': Image)
    requires Lasting(tree, im) && im'.status == im.status
    requires ReceivedUpTo(im'.received, im.status.head) == ReceivedUpTo(im.received, im.status.head)
    ensures Lasting(tree, im')
  {
    hide Chained;
    assert im.status.head in im'.received <==> im.status.head in ReceivedUpTo(im'.received, im.status.head);
    assert im.status.head in im.received <==> im.status.head in ReceivedUpTo(im.received, im.status.head);
  }

  // ---------- steps ----------

  lemma LiveParts(tree: R.Tree, s: Session, exact: bool)
    requires Live(tree, s, exact)
    ensures Chained(tree, Now(s).received, s.st, exact) && Lasting(tree, Now(s)) && Now(s).status.head <= s.st.head
      && s.alive
  {
  }

  lemma FlushLasts(tree: R.Tree, s: Session)
    requires Lasting(tree, Now(s))
    ensures LastingSince(tree, s, Flush(s)) && Now(Flush(s)) == Now(s).(rows := Now(Flush(s)).rows)
  {
    hide Lasting, Pending, FlushLog;
    FlushAdds(Now(s), s.streams);
    var f := Flush(s);
    forall i | |s.log| <= i < |f.log| ensures Lasting(tree, f.log[i]) && f.log[i] == Now(s).(rows := f.log[i].rows) {
      assert f.log[i] == FlushLog(Now(s), s.streams)[i - |s.log|];
      SameLasts(tree, Now(s), f.log[i]);
    }
  }

  lemma CloseLasts(tree: R.Tree, s: Session, exact: bool)
    requires Live(tree, s, exact)
    ensures Live(tree, Close(s), exact) && LastingSince(tree, s, Close(s)) && Close(s).st == s.st
  {
    hide Flush, Chained, Lasting;
    if s.streams != [] {
      FlushLasts(tree, s);
      FlushEmpties(s);
      StatusLasts(tree, Now(Close(s)), s.st, exact);
      LastingTransitive(tree, s, Flush(s), Close(s));
    }
  }

  lemma TrimStepLasts(tree: R.Tree, s: Session, exact: bool)
    requires Live(tree, s, exact)
    ensures Live(tree, Trim(s), exact) && LastingSince(tree, s, Trim(s)) && Trim(s).st.head == s.st.head
    ensures Trim(s).st.irreversible == s.st.irreversible
  {
    hide Chained, Lasting, TrimHistory, TrimReceived;
    var end := if s.st.head < s.st.irreversible then s.st.head else s.st.irreversible;
    if s.st.first < end {
      TrimLasts(tree, Now(s), TrimHistory(Now(s).rows, s.st.first, end), s.st, end, exact);
      TrimChain(tree, Now(s).received, s.st, end, exact);
    }
  }

  lemma PrepareLasts(tree: R.Tree, trim: bool, s: Session, r: Result, exact: bool)
    requires Live(tree, s, exact)
    ensures var p := Prepare(trim, s, r); Live(tree, p, exact) && LastingSince(tree, s, p)
    ensures Prepare(trim, s, r).st.head == s.st.head && Prepare(trim, s, r).st.irreversible == s.st.irreversible
  {
    hide Close, Trim, Live, MustClose, Lasting;
    CloseLasts(tree, s, exact);
    var c := Closed(s, r);
    TrimStepLasts(tree, c, exact);
    if trim && c.streams == [] { LastingTransitive(tree, s, c, Trim(c)); }
  }

  lemma ForkLasts(tree: R.Tree, s: Session, r: Result, exact: bool)
    requires Live(tree, s, exact) && Faithful(tree, r) && r.pos.num <= s.st.head
    ensures var a := AddBlock(s, r, false); LastingSince(tree, s, a) && (a.alive ==> Live(tree, a, exact))
  {
    hide Chained, Lasting, AddAll, CutStatus, Faithful, Below;
    var num, im := r.pos.num, Now(s);
    var st0 := CutStatus(im, s.st, num);
    NumOf(tree, r);
    if Links(st0, r) {
      CutChain(tree, im, s.st, num, exact);
      GrowChain(tree, ReceivedBelow(im.received, num), st0, r, exact);
      StatusLasts(tree, Now(AddBlock(s, r, false)), Advanced(st0, r), exact);
    }
  }

  lemma NumOf(tree: R.Tree, r: Result)
    requires Faithful(tree, r)
    ensures 1 <= r.pos.num < 0xffff_ffff
  {
  }

  lemma ForwardLasts(tree: R.Tree, s: Session, r: Result, bulk: bool, exact: bool)
    requires Live(tree, s, exact) && Faithful(tree, r) && s.st.head < r.pos.num
    ensures var a := AddBlock(s, r, bulk); LastingSince(tree, s, a) && (a.alive ==> Live(tree, a, exact))
  {
    hide Chained, Lasting, AddAll, Faithful, Flush;
    var num := r.pos.num;
    if Links(s.st, r) {
      var st := Advanced(s.st, r);
      var a := s.(streams := AddAll(s.streams, r.rows), st := st);
      GrowChain(tree, Now(s).received, s.st, r, exact);
      FlushLasts(tree, a);
      FlushEmpties(a);
      var t := AddBlock(s, r, bulk);
      if bulk {
        assert ReceivedUpTo(Now(t).received, Now(s).status.head) == ReceivedUpTo(Now(s).received, Now(s).status.head);
        SameLasts(tree, Now(s), Now(t));
      } else {
        StatusLasts(tree, Now(t), st, exact);
        LastingTransitive(tree, s, Flush(a), t);
      }
    }
  }

  /** Every block, with or without a fork and a trim, keeps the chain, and leaves only images that a restart can find a
      chain in. */
  lemma ProcessKeepsChain(tree: R.Tree, cfg: H.Settings, s: Session, r: Result, exact: bool)
    requires Live(tree, s, exact) && Faithful(tree, r)
    ensures var p := Process(cfg, s, r); LastingSince(tree, s, p) && (p.alive ==> Live(tree, p, exact))
  {
    hide Live, Lasting, Close, Prepare, AddBlock, Faithful, IsBulk, LongAgo;
    LiveParts(tree, s, exact);
    if cfg.stopBefore != 0 && r.pos.num >= cfg.stopBefore {
      CloseLasts(tree, s, exact);
    } else {
      var p, bulk := Prepare(cfg.trim, s, r), IsBulk(s, r);
      PrepareLasts(tree, cfg.trim, s, r, exact);
      ForksClose(s, r);
      if r.pos.num <= s.st.head { ForkLasts(tree, p, r, exact); } else { ForwardLasts(tree, p, r, bulk, exact); }
      var a := AddBlock(p, r, bulk);
      LastingTransitive(tree, s, p, a);
      if a.alive && !LongAgo(r) && r.large {
        CloseLasts(tree, a, exact);
        LastingTransitive(tree, s, a, Close(a));
      }
    }
  }

  /** So does every run. */
  lemma {:induction false} RunKeepsChain(tree: R.Tree, cfg: H.Settings, s: Session, rs: seq<Result>, exact: bool)
    requires Live(tree, s, exact) && (forall i :: 0 <= i < |rs| ==> Faithful(tree, rs[i]))
    ensures var t := Run(cfg, s, rs); LastingSince(tree, s, t) && (t.alive ==> Live(tree, t, exact))
    decreases |rs|
  {
    hide Live, Lasting, Process, Faithful;
    if rs != [] {
      var init := rs[..|rs| - 1];
      RunKeepsChain(tree, cfg, s, init, exact);
      var t := Run(cfg, s, init);
      if t.alive {
        ProcessKeepsChain(tree, cfg, t, rs[|rs| - 1], exact);
        LastingTransitive(tree, s, t, Run(cfg, s, rs));
      } else {
        DeadProcess(cfg, t, rs[|rs| - 1]);
      }
    }
  }

  /** A restart goes on from the chain it finds, and that starts exactly at first if the stored first block is there. */
  lemma RestartFindsChain(tree: R.Tree, im: Image)
    requires Lasting(tree, im) && HeadThere(im)
    ensures Live(tree, Open(im), false)
    ensures Live(tree, Open(im), true) <==> im.status.head == 0 || im.status.first in im.received
  {
    hide LinkAt;
    var h := im.status.head;
    var kept := ReceivedUpTo(im.received, h);
    var low: u32 :| Chain(tree, kept, low, im.status);
    assert ReceivedBelow(im.received, H.After(h)) == kept;
    assert ReceivedUpTo(kept, h) == kept;
    assert h in im.received <==> h in kept;
    assert h == 0 ==> 0 !in kept;
    assert Open(im).st == im.status;
    if Live(tree, Open(im), true) && h != 0 {
      var low': u32 :| Chain(tree, kept, low', im.status) && low' == im.status.first;
      assert low' in kept;
    }
    if h != 0 && im.status.first in im.received {
      assert im.status.first in kept;
    }
  }
}
