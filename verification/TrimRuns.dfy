/** Over every run of blocks, forks and trims, and after restarts, a delta key has at most one row up to the first
    block. */
module TrimRuns {
  import opened Bytes
  import opened Store
  import opened KeyCodec
  import opened Tables
  import opened Trimming
  import opened History
  import opened Recovery
  import opened Runs
  import opened Crashes
  import opened ForkWindows

  ghost predicate One(sc: Config, s: Session)
  {
    AtMostOne(sc, All(s), s.st.first)
  }

  /** rows' has no rows up to first' that rows does not have. */
  ghost predicate NoneOlder(rows: Db, rows': Db, first': u32)
  {
    forall k :: k in rows' ==> (k in rows && rows'[k] == rows[k]) || (14 <= |k| && first' < BlockOf(k))
  }

  lemma OneShrinks(sc: Config, rows: Db, rows': Db, first: u32, first': u32)
    requires AtMostOne(sc, rows, first) && first' <= first && NoneOlder(rows, rows', first')
    ensures AtMostOne(sc, rows', first')
  {
    hide TrimGroup, BlockOf;
    forall k, u | k in rows' && u in rows' && SameGroup(sc, rows', k, u) && BlockOf(k) <= first' && BlockOf(u) <= first'
      ensures k == u
    {
      assert SameGroup(sc, rows, k, u);
    }
  }

  lemma SwitchShrinks(tree: Tree, sc: Config, s: Session, num: u32)
    requires Live(tree, sc, s) && 1 <= num && (num <= s.st.head ==> s.st.irreversible < num)
    ensures var r := SwitchForks(sc, s, num); NoneOlder(All(s), All(r), r.st.first) && r.st.first <= s.st.first
  {
    hide EntrySet, IsRow, BlockOf, ReceivedId, Chain, Above, Durable, Recoverable, Ideal, Sane, Restrict;
    if num <= s.st.head {
      LiveAfterEndWrite(tree, sc, s);
      LiveAtBlock(tree, sc, s);
      EndWriteSettles(sc, s);
      var e := EndWrite(s, true);
      ForkTruncates(tree, sc, e, num);
      RewriteStatus(tree, sc, Truncate(sc, e, num));
      assert e.content == map[] && Now(e).rows == All(s);
    }
  }

  lemma AdvanceShrinks(tree: Tree, sc: Config, s: Session, m: Session, r: BlockResult)
    requires Live(tree, sc, s) && AllBelow(s, r.pos.num) && Extends(sc, s, m, r.pos.num, r.steps) && 1 <= r.pos.num
    requires Sane(sc, m) && StatusOf(Now(m)).head < r.pos.num && ReceivedKey(r.pos.num) !in All(m) && s.st.first != 0
    ensures NoneOlder(All(s), All(Advance(m, r)), Advance(m, r).st.first)
  {
    hide EntrySet, IsRow, BlockOf, ReceivedId, ReceivedKey, ReceivedValue, Chain, Above, Durable, Sane, StepKey, All,
         AllBelow;
    AdvanceSane(sc, m, r);
    LiveHead(tree, sc, s, r.pos.num);
    BlockOfReceived(r.pos.num);
    forall k | k in All(Advance(m, r)) && k !in All(s) ensures 14 <= |k| && BlockOf(k) == r.pos.num {
      if k in All(m) {
        var i :| 0 <= i < |r.steps| && StepKey(sc, r.pos.num, r.steps[i]) == Some(k);
        BlockOfStep(sc, r.pos.num, r.steps[i]);
      }
    }
    forall k | k in All(Advance(m, r)) && k in All(s) ensures All(Advance(m, r))[k] == All(s)[k] { }
  }

  lemma CommitOne(tree: Tree, sc: Config, cfg: Settings, s: Session)
    requires Live(tree, sc, s) && One(sc, s)
    ensures One(sc, Commit(sc, cfg, s))
  {
    hide EntrySet, IsRow, BlockOf, Chain, Above, Durable, Sane, Trimmed, AtMostOne;
    LiveAfterEndWrite(tree, sc, s);
    var e := EndWrite(s, true);
    SaneRows(sc, e);
    assert All(e) == Now(e).rows;
    var r := Commit(sc, cfg, s);
    if r != e {
      TrimLeavesOne(sc, All(e), e.st.first, r.st.first);
      assert All(r) == Now(r).rows;
    }
  }

  /** The first block of a run has one row for each key; then it stays so for all rows up to the first block kept. */
  lemma BlockKeepsOne(tree: Tree, sc: Config, cfg: Settings, s: Session, r: BlockResult)
    requires Live(tree, sc, s) && Allowed(tree, sc, s, r) && One(sc, s) && Received(sc, cfg, s, r).alive
    requires var s1 := SwitchForks(sc, s, r.pos.num);
      s1.st.first == 0 ==> AtMostOne(sc, All(Advance(DoAll(sc, s1, r.pos.num, r.steps), r)), r.pos.num)
    ensures One(sc, Received(sc, cfg, s, r))
  {
    hide Live, Advance, Commit, DoAll, EndWrite, SwitchForks, AllBelow, Once, AtMostOne, NoneOlder, Sane, Extends;
    FaithfulNum(tree, r);
    LiveAlive(tree, sc, s);
    SwitchKeeps(tree, sc, s, r.pos.num);
    SwitchShrinks(tree, sc, s, r.pos.num);
    var s1 := SwitchForks(sc, s, r.pos.num);
    OneShrinks(sc, All(s), All(s1), s.st.first, s1.st.first);
    AllowedAfterSwitch(tree, sc, s, s1, r);
    AfterSwitchOne(tree, sc, cfg, s1, r);
  }

  lemma AfterSwitchOne(tree: Tree, sc: Config, cfg: Settings, s: Session, r: BlockResult)
    requires Live(tree, sc, s) && AllBelow(s, r.pos.num) && Allowed(tree, sc, s, r) && Links(s, r) && One(sc, s)
    requires s.st.first == 0 ==> AtMostOne(sc, All(Advance(DoAll(sc, s, r.pos.num, r.steps), r)), r.pos.num)
    ensures var s2 := DoAll(sc, s, r.pos.num, r.steps);
      s2.alive ==> One(sc, Advance(s2, r)) && One(sc, Commit(sc, cfg, Advance(s2, r)))
  {
    hide Live, Commit, DoAll, EndWrite, AllBelow, Once, AtMostOne, NoneOlder, Sane, Extends, Links, Grows, All;
    LiveAlive(tree, sc, s);
    LiveSane(tree, sc, s);
    FaithfulNum(tree, r);
    StepsKeep(sc, s, r.pos.num, r.steps);
    ProcessKeeps(tree, sc, cfg, s, r);
    var m := DoAll(sc, s, r.pos.num, r.steps);
    if m.alive {
      BelowNum(s, r.pos.num);
      OthersUntouched(sc, s, m, r.pos.num, r.steps, 0);
      SameStatus(sc, s, m, r);
      if s.st.first != 0 {
        AdvanceShrinks(tree, sc, s, m, r);
        OneShrinks(sc, All(s), All(Advance(m, r)), s.st.first, Advance(m, r).st.first);
      }
      CommitOne(tree, sc, cfg, Advance(m, r));
    }
  }

  lemma LiveSane(tree: Tree, sc: Config, s: Session)
    requires Live(tree, sc, s)
    ensures Sane(sc, s)
  {
  }

  lemma SameStatus(sc: Config, s: Session, m: Session, r: BlockResult)
    requires Extends(sc, s, m, r.pos.num, r.steps)
    ensures m.st == s.st
  {
  }

  // ---------- images ----------

  /** Up to its first block, what a restart keeps of the image has at most one row for each key. */
  ghost predicate OneImage(sc: Config, im: Image)
  {
    GoodRows(sc, im.rows) && Wellformed(StatusOf(im)) && AtMostOne(sc, Kept(im), StatusOf(im).first)
  }

  ghost predicate OneSince(sc: Config, s: Session, t: Session)
  {
    s.log <= t.log && forall i :: |s.log| <= i < |t.log| ==> OneImage(sc, t.log[i])
  }

  lemma OneSinceTransitive(sc: Config, s: Session, t: Session, u: Session)
    requires OneSince(sc, s, t) && OneSince(sc, t, u)
    ensures OneSince(sc, s, u)
  {
    hide OneImage;
    forall i | |s.log| <= i < |u.log| ensures OneImage(sc, u.log[i]) {
      if i < |t.log| { assert OneImage(sc, t.log[i]); }
    }
  }

  lemma OneSinceSelf(sc: Config, s: Session)
    ensures OneSince(sc, s, s)
  {
  }

  lemma OneSinceDead(sc: Config, s: Session, t: Session)
    requires OneSince(sc, s, t)
    ensures OneSince(sc, s, Dead(t))
  {
    hide OneImage;
  }

  lemma OneSinceNow(sc: Config, s: Session, t: Session)
    requires OneImage(sc, Now(s)) && OneSince(sc, s, t)
    ensures OneImage(sc, Now(t))
  {
    hide OneImage;
  }

  lemma SameIdealOne(sc: Config, a: Image, b: Image)
    requires SameIdeal(sc, a, b) && OneImage(sc, a)
    ensures OneImage(sc, b)
  {
    hide EntrySet, Kept, AtMostOne;
    assert Ideal(sc, a).rows == Ideal(sc, b).rows && Ideal(sc, a).status == Ideal(sc, b).status;
  }

  lemma GrowsOne(sc: Config, s: Session, t: Session)
    requires Grows(sc, s, t) && OneImage(sc, Now(s))
    ensures OneSince(sc, s, t)
  {
    hide OneImage, SameIdeal;
    assert t.log[..|s.log|] == s.log;
    forall i | |s.log| <= i < |t.log| ensures OneImage(sc, t.log[i]) {
      SameIdealOne(sc, Now(s), t.log[i]);
    }
  }

  /** An image of all rows, with the session's status. */
  lemma SettledOne(sc: Config, im: Image, st: Status)
    requires GoodRows(sc, im.rows) && im.status == Some(Clamp(st)) && Wellformed(Clamp(st))
    requires AtMostOne(sc, im.rows, st.first)
    ensures OneImage(sc, im)
  {
    hide BlockOf, TrimGroup;
    assert NoneOlder(im.rows, Kept(im), st.first);
    OneShrinks(sc, im.rows, Kept(im), st.first, st.first);
  }

  lemma KeptFewer(a: Image, b: Image)
    requires b.status == a.status && forall k :: k in b.rows ==> k in a.rows && b.rows[k] == a.rows[k]
    ensures NoneOlder(Kept(a), Kept(b), StatusOf(a).first)
  {
    hide BlockOf;
  }

  /** Some of the rows, under the same status. */
  lemma FewerOne(sc: Config, a: Image, b: Image)
    requires OneImage(sc, a) && b.status == a.status && GoodRows(sc, b.rows)
    requires forall k :: k in b.rows ==> k in a.rows && b.rows[k] == a.rows[k]
    ensures OneImage(sc, b)
  {
    hide BlockOf, TrimGroup, AtMostOne, Kept, NoneOlder, IsRow, Wellformed;
    KeptFewer(a, b);
    OneShrinks(sc, Kept(a), Kept(b), StatusOf(a).first, StatusOf(a).first);
  }

  lemma LiveWellformed(tree: Tree, sc: Config, s: Session)
    requires Live(tree, sc, s)
    ensures Wellformed(Clamp(s.st))
  {
    hide Sane, UpTo, Above, Durable, ReceivedKey, ReceivedId;
  }

  lemma WriteOne(tree: Tree, sc: Config, s: Session)
    requires Live(tree, sc, s) && One(sc, s) && OneImage(sc, Now(s))
    ensures OneSince(sc, s, EndWrite(s, true))
  {
    hide Sane, UpTo, Chain, Above, Recoverable, Ideal, Kept, EntrySet, AtBlock, All, OneImage, Clamp, AtMostOne;
    LiveAtBlock(tree, sc, s);
    LiveSane(tree, sc, s);
    EndWriteSettles(sc, s);
    SaneRows(sc, s);
    SameIdealOne(sc, Now(s), Now(s).(rows := All(s)));
    LiveWellformed(tree, sc, s);
    SettledOne(sc, Now(EndWrite(s, true)), s.st);
  }

  lemma TrimOne(tree: Tree, sc: Config, s: Session)
    requires Live(tree, sc, s) && s.content == map[] && s.index == {} && One(sc, s)
    ensures OneSince(sc, s, Trim(sc, s))
  {
    hide Live, EntrySet, Trimmed, AtMostOne, Clamp, Settled, Restrict, Sane, IsRow, Wellformed, OneImage;
    var r := Trim(sc, s);
    if r != s {
      LiveSane(tree, sc, s);
      SaneRows(sc, s);
      assert All(s) == Now(s).rows;
      TrimLeavesOne(sc, All(s), s.st.first, r.st.first);
      TrimKeeps(tree, sc, s);
      LiveWellformed(tree, sc, r);
      SettledRows(sc, Now(r));
      SettledOne(sc, Now(r), r.st);
    }
  }

  lemma SettledRows(sc: Config, im: Image)
    requires Settled(sc, im)
    ensures GoodRows(sc, im.rows)
  {
  }

  lemma CommitOneLog(tree: Tree, sc: Config, cfg: Settings, s: Session)
    requires Live(tree, sc, s) && One(sc, s) && OneImage(sc, Now(s))
    ensures OneSince(sc, s, Commit(sc, cfg, s))
  {
    hide Live, OneImage, EndWrite, AtMostOne, All;
    WriteOne(tree, sc, s);
    WriteIsSteady(tree, sc, s);
    LiveAfterEndWrite(tree, sc, s);
    var e := EndWrite(s, true);
    if cfg.trim {
      TrimOne(tree, sc, e);
      OneSinceTransitive(sc, s, e, Trim(sc, e));
    }
  }

  /** A switch of forks ends with the status written, and nothing in the batches. */
  lemma SwitchEnd(sc: Config, s: Session, num: u32)
    requires num <= s.st.head && 1 <= num
    ensures var r := SwitchForks(sc, s, num); Now(r).status == Some(Clamp(r.st)) && All(r) == Now(r).rows
  {
    hide ReceivedId, EntrySet, BlockOf, Restrict, From, Truncate, Clamp;
    var e := EndWrite(s, true);
    TruncateResult(sc, e, num);
    WriteNothing(Truncate(sc, e, num));
    assert Now(SwitchForks(sc, s, num)).rows + map[] == Now(SwitchForks(sc, s, num)).rows;
  }

  lemma SwitchOne(tree: Tree, sc: Config, s: Session, num: u32)
    requires Live(tree, sc, s) && One(sc, s) && OneImage(sc, Now(s)) && 1 <= num
      && (num <= s.st.head ==> s.st.irreversible < num)
    ensures var r := SwitchForks(sc, s, num); OneSince(sc, s, r) && One(sc, r)
  {
    hide Live, EntrySet, AtMostOne, Clamp, Restrict, IsRow, Wellformed, OneImage, All, Left, From, Durable, Settled,
         SwitchForks, SameIdeal, NoneOlder;
    var r := SwitchForks(sc, s, num);
    SwitchShrinks(tree, sc, s, num);
    OneShrinks(sc, All(s), All(r), s.st.first, r.st.first);
    if num <= s.st.head {
      SwitchLog(tree, sc, s, num);
      SwitchEnd(sc, s, num);
      LiveWellformed(tree, sc, s);
      LiveWellformed(tree, sc, r);
      SameIdealOne(sc, Now(s), r.log[|s.log|]);
      SettledOne(sc, r.log[|s.log| + 1], s.st);
      SameRowsOne(sc, r.log[|s.log| + 1], r.log[|s.log| + 2]);
      LeftFewer(s, num);
      FewerOne(sc, r.log[|s.log| + 1], r.log[|s.log| + 3]);
      SettledRows(sc, Now(r));
      SettledOne(sc, Now(r), r.st);
    } else {
      NothingSwitched(sc, s, num);
      OneSinceSelf(sc, s);
    }
  }

  lemma NothingSwitched(sc: Config, s: Session, num: u32)
    requires s.st.head < num
    ensures SwitchForks(sc, s, num) == s
  {
  }

  lemma LeftFewer(s: Session, num: u32)
    ensures forall k :: k in Left(s, num) ==> k in All(s) && Left(s, num)[k] == All(s)[k]
  {
  }

  lemma SameRowsOne(sc: Config, a: Image, b: Image)
    requires OneImage(sc, a) && b.rows == a.rows && b.status == a.status
    ensures OneImage(sc, b)
  {
    hide AtMostOne, BlockOf;
    assert Kept(b) == Kept(a);
  }

  // ---------- blocks and runs ----------

  /** The first block of a run, and the first after a fork of all blocks there are, has one row for each key. */
  ghost predicate FirstOk(sc: Config, s: Session, r: BlockResult)
  {
    var s1 := SwitchForks(sc, s, r.pos.num);
    var s2 := DoAll(sc, s1, r.pos.num, r.steps);
    s1.st.first == 0 && s2.alive ==> AtMostOne(sc, All(Advance(s2, r)), r.pos.num)
  }

  /** One block: the session, and all images that it leaves. */
  lemma BlockImagesKeepOne(tree: Tree, sc: Config, cfg: Settings, s: Session, r: BlockResult)
    requires Live(tree, sc, s) && Allowed(tree, sc, s, r) && One(sc, s) && OneImage(sc, Now(s)) && FirstOk(sc, s, r)
    ensures var s' := Received(sc, cfg, s, r); OneSince(sc, s, s') && (s'.alive ==> One(sc, s'))
  {
    hide Live, Advance, Commit, DoAll, EndWrite, SwitchForks, AllBelow, Once, One, AtMostOne, OneImage, OneSince,
         Faithful, Links;
    LiveAlive(tree, sc, s);
    FaithfulNum(tree, r);
    if cfg.stopBefore != 0 && r.pos.num >= cfg.stopBefore {
      WriteOne(tree, sc, s);
      OneSinceDead(sc, s, EndWrite(s, true));
    } else {
      var s1 := SwitchForks(sc, s, r.pos.num);
      SwitchKeeps(tree, sc, s, r.pos.num);
      SwitchOne(tree, sc, s, r.pos.num);
      OneSinceNow(sc, s, s1);
      AllowedAfterSwitch(tree, sc, s, s1, r);
      if Links(s1, r) {
        AfterSwitchOneLog(tree, sc, cfg, s1, r);
      } else {
        OneSinceSelf(sc, s1);
        OneSinceDead(sc, s1, s1);
      }
      OneSinceTransitive(sc, s, s1, Received(sc, cfg, s, r));
    }
  }

  lemma AfterSwitchOneLog(tree: Tree, sc: Config, cfg: Settings, s: Session, r: BlockResult)
    requires Live(tree, sc, s) && AllBelow(s, r.pos.num) && Allowed(tree, sc, s, r) && Links(s, r) && One(sc, s)
    requires OneImage(sc, Now(s))
    requires var s2 := DoAll(sc, s, r.pos.num, r.steps);
      s.st.first == 0 && s2.alive ==> AtMostOne(sc, All(Advance(s2, r)), r.pos.num)
    ensures var s' := History.Process(sc, cfg, s, r); OneSince(sc, s, s') && (s'.alive ==> One(sc, s'))
  {
    hide Live, Commit, DoAll, EndWrite, AllBelow, Once, AtMostOne, Sane, Extends, Links, Grows, All, OneImage, OneSince,
         Faithful, One;
    LiveAlive(tree, sc, s);
    LiveSane(tree, sc, s);
    FaithfulNum(tree, r);
    StepsKeep(sc, s, r.pos.num, r.steps);
    ProcessKeeps(tree, sc, cfg, s, r);
    var m := DoAll(sc, s, r.pos.num, r.steps);
    GrowsOne(sc, s, m);
    if m.alive {
      AfterSwitchOne(tree, sc, cfg, s, r);
      var a := Advance(m, r);
      SameLogOne(sc, s, m, a);
      OneSinceNow(sc, s, a);
      if CommitNow(r) {
        CommitOneLog(tree, sc, cfg, a);
        OneSinceTransitive(sc, s, a, Commit(sc, cfg, a));
      }
    }
  }

  lemma SameLogOne(sc: Config, s: Session, t: Session, u: Session)
    requires OneSince(sc, s, t) && u.log == t.log
    ensures OneSince(sc, s, u)
  {
    hide OneImage;
  }

  ghost predicate FirstsOk(sc: Config, cfg: Settings, s: Session, rs: seq<BlockResult>)
  {
    rs == [] ||
    (FirstsOk(sc, cfg, s, rs[..|rs| - 1]) &&
     var m := Run(sc, cfg, s, rs[..|rs| - 1]); m.alive ==> FirstOk(sc, m, rs[|rs| - 1]))
  }

  /** Every run of blocks, forks and trims keeps at most one row for each key up to the first block, in the session and
      in all its images. */
  lemma {:induction false} RunKeepsOne(tree: Tree, sc: Config, cfg: Settings, s: Session, rs: seq<BlockResult>)
    requires Live(tree, sc, s) && AllowedRun(tree, sc, cfg, s, rs) && FirstsOk(sc, cfg, s, rs)
    requires One(sc, s) && OneImage(sc, Now(s))
    ensures var t := Run(sc, cfg, s, rs); OneSince(sc, s, t) && (t.alive ==> One(sc, t))
    decreases |rs|
  {
    hide Live, Received, Allowed, FirstOk, One, OneImage, OneSince;
    if rs == [] {
      OneSinceSelf(sc, s);
    } else {
      var init, r := rs[..|rs| - 1], rs[|rs| - 1];
      RunKeepsOne(tree, sc, cfg, s, init);
      RunKeeps(tree, sc, cfg, s, init);
      var m := Run(sc, cfg, s, init);
      if m.alive {
        OneSinceNow(sc, s, m);
        BlockImagesKeepOne(tree, sc, cfg, m, r);
        OneSinceTransitive(sc, s, m, Run(sc, cfg, s, rs));
      } else {
        DeadStays(sc, cfg, m, r);
      }
    }
  }

  /** So does a restart from any of these images, even from those of a switch that it does not repair. */
  lemma OpenKeepsOne(sc: Config, im: Image)
    requires OneImage(sc, im)
    ensures One(sc, Open(sc, im))
  {
    hide EntrySet, Restrict, From, Open, AtMostOne, IsRow, BlockOf, Clamp, ReceivedId, Kept;
    OpenResult(sc, im);
    OpenBatches(sc, im);
    assert Now(Open(sc, im)).rows + map[] == Now(Open(sc, im)).rows;
    OneShrinks(sc, Kept(im), Kept(im), StatusOf(im).first, Fallback(im).first);
  }

  lemma OpenBatches(sc: Config, im: Image)
    ensures Open(sc, im).content == map[]
  {
    hide Truncate;
  }

  /** Over any run from such an image, every image of the run is one too, and a restart from it. */
  lemma StopKeepsOne(tree: Tree, sc: Config, cfg: Settings, im: Image, rs: seq<BlockResult>, n: nat)
    requires Restartable(tree, sc, im) && OneImage(sc, im)
    requires AllowedRun(tree, sc, cfg, Open(sc, im), rs) && FirstsOk(sc, cfg, Open(sc, im), rs)
    requires |Open(sc, im).log| <= n < |Run(sc, cfg, Open(sc, im), rs).log|
    ensures var d := Run(sc, cfg, Open(sc, im), rs).log[n]; OneImage(sc, d) && One(sc, Open(sc, d))
  {
    hide Live, Run, AllowedRun, FirstsOk, Open, OneImage, One, Restartable;
    var s := Open(sc, im);
    OpenIsLive(tree, sc, im);
    OpenKeepsOne(sc, im);
    RestartOne(tree, sc, im);
    RunKeepsOne(tree, sc, cfg, s, rs);
    OpenKeepsOne(sc, Run(sc, cfg, s, rs).log[n]);
  }

  lemma RestartOne(tree: Tree, sc: Config, im: Image)
    requires Restartable(tree, sc, im) && OneImage(sc, im)
    ensures OneImage(sc, Now(Open(sc, im)))
  {
    hide EntrySet, Open, AtMostOne, IsRow, BlockOf, StatusOk, Durable;
    RestartRestores(sc, im);
    var o := Now(Open(sc, im));
    assert o.rows == Kept(im) && StatusOf(o) == StatusOf(im);
    assert Kept(o) == Kept(im);
  }
}
