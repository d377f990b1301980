/** The main results about runs: what every block keeps, and where a restart goes after a stop at any batch. */
module Crashes {
  import opened Bytes
  import opened Store
  import opened KeyCodec
  import opened Tables
  import opened History
  import opened Recovery
  import opened Runs

  /** A restart can go on from this image. */
  ghost predicate Restartable(tree: Tree, sc: Config, im: Image)
  {
    Recoverable(sc, im) && Durable(tree, im)
  }

  /** From one batch to the next a restart goes to the same place, or else to what the batch has just made. */
  ghost predicate StepOk(tree: Tree, sc: Config, a: Image, b: Image)
  {
    Restartable(tree, sc, b) && (Ideal(sc, b) == Ideal(sc, a) || Ideal(sc, b) == b)
  }

  ghost predicate Steady(tree: Tree, sc: Config, s: Session, r: Session)
  {
    && |s.log| <= |r.log| && r.log[..|s.log|] == s.log
    && forall i :: |s.log| <= i < |r.log| ==> StepOk(tree, sc, r.log[i - 1], r.log[i])
  }

  lemma SteadyTransitive(tree: Tree, sc: Config, s: Session, r: Session, t: Session)
    requires Steady(tree, sc, s, r) && Steady(tree, sc, r, t)
    ensures Steady(tree, sc, s, t)
  {
    hide StepOk;
    forall i | |s.log| <= i < |t.log| ensures StepOk(tree, sc, t.log[i - 1], t.log[i]) {
      if i < |r.log| {
        assert t.log[i] == t.log[..|r.log|][i] && t.log[i - 1] == t.log[..|r.log|][i - 1];
      }
    }
    assert t.log[..|s.log|] == t.log[..|r.log|][..|s.log|];
  }

  lemma SameIdealDurable(tree: Tree, sc: Config, a: Image, b: Image)
    requires SameIdeal(sc, a, b) && Durable(tree, a)
    ensures StepOk(tree, sc, a, b) && Restartable(tree, sc, b)
  {
    hide Recoverable, Chain, Above, EntrySet, Kept, StatusOf;
    assert Ideal(sc, a).rows == Kept(a) && Ideal(sc, b).rows == Kept(b);
    assert Ideal(sc, a).status == Some(StatusOf(a)) && Ideal(sc, b).status == Some(StatusOf(b));
  }

  lemma GrowsSteady(tree: Tree, sc: Config, s: Session, r: Session)
    requires Grows(sc, s, r) && Durable(tree, Now(s))
    ensures Steady(tree, sc, s, r) && Durable(tree, Now(r))
  {
    hide SameIdeal, StepOk, Durable;
    forall i | |s.log| <= i < |r.log| ensures StepOk(tree, sc, r.log[i - 1], r.log[i]) {
      SameIdealDurable(tree, sc, Now(s), r.log[i]);
      if i == |s.log| {
        assert r.log[i - 1] == r.log[..|s.log|][i - 1];
      } else {
        assert SameIdeal(sc, Now(s), r.log[i - 1]);
        StepBetween(tree, sc, Now(s), r.log[i - 1], r.log[i]);
      }
    }
    if |r.log| > |s.log| {
      SameIdealDurable(tree, sc, Now(s), Now(r));
      RestartableDurable(tree, sc, Now(r));
    } else {
      assert r.log == r.log[..|s.log|];
    }
  }

  lemma RestartableDurable(tree: Tree, sc: Config, im: Image)
    requires Restartable(tree, sc, im)
    ensures Durable(tree, im)
  {
  }

  lemma StepBetween(tree: Tree, sc: Config, s: Image, a: Image, b: Image)
    requires SameIdeal(sc, s, a) && SameIdeal(sc, s, b) && Restartable(tree, sc, b)
    ensures StepOk(tree, sc, a, b)
  {
  }

  lemma WriteIsSteady(tree: Tree, sc: Config, s: Session)
    requires Live(tree, sc, s)
    ensures Live(tree, sc, EndWrite(s, true)) && Steady(tree, sc, s, EndWrite(s, true))
    ensures EndWrite(s, true).content == map[] && EndWrite(s, true).index == {}
  {
    hide Sane, UpTo, Chain, Above, Recoverable, Ideal, Kept, EntrySet, AtBlock, All;
    LiveAfterEndWrite(tree, sc, s);
    LiveAtBlock(tree, sc, s);
    EndWriteSettles(sc, s);
    var r := EndWrite(s, true);
    SameIdealDurable(tree, sc, Now(s), r.log[|s.log|]);
    assert r.log[..|s.log|] == s.log;
  }

  lemma TrimIsSteady(tree: Tree, sc: Config, s: Session)
    requires Live(tree, sc, s) && s.content == map[] && s.index == {}
    ensures Live(tree, sc, Trim(sc, s)) && Steady(tree, sc, s, Trim(sc, s))
  {
    hide Sane, UpTo, Chain, Above, Recoverable, Ideal, Kept, EntrySet, All, Trim;
    TrimKeeps(tree, sc, s);
    assert s.log[..|s.log|] == s.log;
  }

  lemma SteadySound(tree: Tree, sc: Config, s: Session, r: Session)
    requires Steady(tree, sc, s, r)
    ensures SoundSince(sc, s, r)
  {
    hide Ideal, Durable;
    forall i | |s.log| <= i < |r.log| ensures Sound(sc, r.log[i]) {
      assert StepOk(tree, sc, r.log[i - 1], r.log[i]);
    }
  }

  /** What the node may send: faithful ids, each row once, and no fork from before an irreversible block. */
  ghost predicate Allowed(tree: Tree, sc: Config, s: Session, r: BlockResult)
  {
    && Faithful(tree, r) && Once(sc, r.pos.num, r.steps) && s.st.irreversible <= r.irreversible.num
    && (r.pos.num <= s.st.head ==> s.st.irreversible < r.pos.num)
  }

  /** From a session at a block to the next block, when no fork needs to be switched. */
  lemma ProcessKeeps(tree: Tree, sc: Config, cfg: Settings, s: Session, r: BlockResult)
    requires Live(tree, sc, s) && AllBelow(s, r.pos.num) && Allowed(tree, sc, s, r) && Links(s, r)
    ensures var m := DoAll(sc, s, r.pos.num, r.steps);
      && Steady(tree, sc, s, m)
      && (m.alive ==> Live(tree, sc, Advance(m, r)) && Steady(tree, sc, s, Advance(m, r)))
  {
    hide Sane, Chain, Above, UpTo, AllBelow, Once, Faithful, Extends, Durable, Links, Grows, All;
    var m := DoAll(sc, s, r.pos.num, r.steps);
    StepsKeep(sc, s, r.pos.num, r.steps);
    GrowsSteady(tree, sc, s, m);
    if m.alive {
      AdvanceKeeps(tree, sc, s, m, r);
    }
  }

  lemma CommitKeeps(tree: Tree, sc: Config, cfg: Settings, s: Session)
    requires Live(tree, sc, s)
    ensures Live(tree, sc, Commit(sc, cfg, s)) && Steady(tree, sc, s, Commit(sc, cfg, s))
  {
    hide Live, Steady, EndWrite, Trim;
    WriteIsSteady(tree, sc, s);
    if cfg.trim {
      TrimIsSteady(tree, sc, EndWrite(s, true));
      SteadyTransitive(tree, sc, s, EndWrite(s, true), Trim(sc, EndWrite(s, true)));
    }
  }

  lemma SteadySelf(tree: Tree, sc: Config, s: Session)
    ensures Steady(tree, sc, s, s)
  {
    assert s.log[..|s.log|] == s.log;
  }

  /** received, after the switch of forks if there is one. */
  lemma AfterSwitchKeeps(tree: Tree, sc: Config, cfg: Settings, s: Session, r: BlockResult)
    requires Live(tree, sc, s) && AllBelow(s, r.pos.num) && Allowed(tree, sc, s, r) && Links(s, r)
    ensures var s2 := DoAll(sc, s, r.pos.num, r.steps);
      var s3 := if !s2.alive then s2 else if CommitNow(r) then Commit(sc, cfg, Advance(s2, r)) else Advance(s2, r);
      Steady(tree, sc, s, s3) && (s3.alive ==> Live(tree, sc, s3))
  {
    hide Live, Steady, Advance, Commit, DoAll, Allowed, Links, AllBelow;
    ProcessKeeps(tree, sc, cfg, s, r);
    var s2 := DoAll(sc, s, r.pos.num, r.steps);
    if s2.alive && CommitNow(r) {
      CommitKeeps(tree, sc, cfg, Advance(s2, r));
      SteadyTransitive(tree, sc, s, Advance(s2, r), Commit(sc, cfg, Advance(s2, r)));
    }
  }

  /** Every block, with or without a switch of forks, keeps what holds between blocks, and every entry its row. */
  lemma BlockKeeps(tree: Tree, sc: Config, cfg: Settings, s: Session, r: BlockResult)
    requires Live(tree, sc, s) && Allowed(tree, sc, s, r)
    ensures var s' := Received(sc, cfg, s, r);
      && (s'.alive ==> Live(tree, sc, s')) && SoundSince(sc, s, s')
      && (r.pos.num > s.st.head ==> Steady(tree, sc, s, s'))
  {
    hide Live, Steady, Advance, Commit, DoAll, EndWrite, SwitchForks, SoundSince, Links, AllBelow, Faithful, Once;
    LiveAlive(tree, sc, s);
    if cfg.stopBefore != 0 && r.pos.num >= cfg.stopBefore {
      WriteIsSteady(tree, sc, s);
      var e := EndWrite(s, true);
      SteadyDead(tree, sc, s, e);
      SteadySound(tree, sc, s, Dead(e));
    } else {
      FaithfulNum(tree, r);
      SwitchKeeps(tree, sc, s, r.pos.num);
      var s1 := SwitchForks(sc, s, r.pos.num);
      var s' := Received(sc, cfg, s, r);
      if Links(s1, r) {
        AllowedAfterSwitch(tree, sc, s, s1, r);
        AfterSwitchKeeps(tree, sc, cfg, s1, r);
      } else {
        SteadySelf(tree, sc, s1);
        SteadyDead(tree, sc, s1, s1);
      }
      SteadySound(tree, sc, s1, s');
      SoundSinceTransitive(sc, s, s1, s');
    }
  }

  lemma AllowedAfterSwitch(tree: Tree, sc: Config, s: Session, s1: Session, r: BlockResult)
    requires Allowed(tree, sc, s, r) && s1.st.irreversible == s.st.irreversible && AllBelow(s1, r.pos.num) &&
             Live(tree, sc, s1)
    ensures Allowed(tree, sc, s1, r)
  {
    hide Chain, Faithful, Once, Above, Sane, Durable;
    FaithfulNum(tree, r);
    LiveHead(tree, sc, s1, r.pos.num);
  }

  lemma LiveAlive(tree: Tree, sc: Config, s: Session)
    requires Live(tree, sc, s)
    ensures s.alive
  {
  }

  lemma FaithfulNum(tree: Tree, r: BlockResult)
    requires Faithful(tree, r)
    ensures 1 <= r.pos.num
  {
  }

  lemma SteadyDead(tree: Tree, sc: Config, s: Session, r: Session)
    requires Steady(tree, sc, s, r)
    ensures Steady(tree, sc, s, Dead(r))
  {
    hide StepOk;
  }

  // ---------- runs ----------

  ghost predicate AllowedRun(tree: Tree, sc: Config, cfg: Settings, s: Session, rs: seq<BlockResult>)
  {
    rs == [] ||
    (AllowedRun(tree, sc, cfg, s, rs[..|rs| - 1]) &&
     var m := Run(sc, cfg, s, rs[..|rs| - 1]); m.alive ==> Allowed(tree, sc, m, rs[|rs| - 1]))
  }

  ghost predicate NoForks(sc: Config, cfg: Settings, s: Session, rs: seq<BlockResult>)
  {
    rs == [] ||
    (NoForks(sc, cfg, s, rs[..|rs| - 1]) &&
     var m := Run(sc, cfg, s, rs[..|rs| - 1]); m.alive ==> rs[|rs| - 1].pos.num > m.st.head)
  }

  /** In every run of blocks, forks and trims each image has a row for each entry, and between blocks the entries
      are those of the rows and the received blocks a chain. */
  lemma {:induction false} RunKeeps(tree: Tree, sc: Config, cfg: Settings, s: Session, rs: seq<BlockResult>)
    requires Live(tree, sc, s) && AllowedRun(tree, sc, cfg, s, rs)
    ensures var r := Run(sc, cfg, s, rs);
      && (r.alive ==> Live(tree, sc, r)) && SoundSince(sc, s, r)
      && (NoForks(sc, cfg, s, rs) ==> Steady(tree, sc, s, r))
    decreases |rs|
  {
    hide Live, Steady, SoundSince, Received, Allowed;
    if rs == [] {
      SteadySelf(tree, sc, s);
      SteadySound(tree, sc, s, s);
    } else {
      var init := rs[..|rs| - 1];
      RunKeeps(tree, sc, cfg, s, init);
      var m := Run(sc, cfg, s, init);
      var r := Run(sc, cfg, s, rs);
      if m.alive {
        BlockKeeps(tree, sc, cfg, m, rs[|rs| - 1]);
        SoundSinceTransitive(sc, s, m, r);
        if NoForks(sc, cfg, s, rs) { SteadyTransitive(tree, sc, s, m, r); }
      } else {
        assert r == m by { DeadStays(sc, cfg, m, rs[|rs| - 1]); }
      }
    }
  }

  lemma DeadStays(sc: Config, cfg: Settings, s: Session, r: BlockResult)
    requires !s.alive
    ensures Received(sc, cfg, s, r) == s
  {
  }

  // ---------- restarts ----------

  /** The latest of the images up to n that is recoverable and exactly what its own status says: the one that the last
      status was written with. */
  ghost function LastSettled(sc: Config, log: seq<Image>, n: nat): Image
    requires n < |log|
  {
    if n == 0 || Settled(sc, log[n]) then Ideal(sc, log[n]) else LastSettled(sc, log, n - 1)
  }

  lemma {:induction false} IdealIsLastSettled(tree: Tree, sc: Config, log: seq<Image>, n: nat)
    requires n < |log| && forall i :: 0 < i < |log| ==> StepOk(tree, sc, log[i - 1], log[i])
    ensures Ideal(sc, log[n]) == LastSettled(sc, log, n)
  {
    if n > 0 {
      IdealIsLastSettled(tree, sc, log, n - 1);
      assert StepOk(tree, sc, log[n - 1], log[n]);
    }
  }

  /** The session that a restart begins can go on as any other. */
  lemma OpenIsLive(tree: Tree, sc: Config, im: Image)
    requires Restartable(tree, sc, im)
    ensures Live(tree, sc, Open(sc, im)) && forall i :: 0 < i < |Open(sc, im).log| ==>
      StepOk(tree, sc, Open(sc, im).log[i - 1], Open(sc, im).log[i])
    ensures Open(sc, im).log[0] == im
  {
    hide Chain, Above, EntrySet, EndWrite, Truncate, IsRow, BlockOf, ReceivedKey;
    RestartRestores(sc, im);
    var s := Open(sc, im);
    NoEntries(sc);
    var d := Ideal(sc, im);
    assert Now(s) == d && d.rows == Kept(im);
    SameIdealDurable(tree, sc, im, d);
    assert Kept(im) + map[] == Kept(im);
    OpenLog(sc, im);
    forall i | 0 < i < |s.log| ensures StepOk(tree, sc, s.log[i - 1], s.log[i]) {
      SameIdealDurable(tree, sc, im, s.log[i]);
      StepBetween(tree, sc, im, s.log[i - 1], s.log[i]);
    }
  }

  lemma OpenLog(sc: Config, im: Image)
    ensures Open(sc, im).log[0] == im
  {
  }

  /** An empty database is where the first run starts. */
  lemma EmptyIsRestartable(tree: Tree, sc: Config)
    ensures Restartable(tree, sc, Image(map[], {}, None))
  {
    var im := Image(map[], {}, None);
    NoEntries(sc);
    assert Kept(im) == map[];
  }

  /** With no fork: wherever a run stops, even during the restart after that, a restart leads to exactly the rows
      and entries as of the last status written, and can go on from there. */
  lemma StopAnywhere(tree: Tree, sc: Config, cfg: Settings, im: Image, rs: seq<BlockResult>, n: nat)
    requires Restartable(tree, sc, im)
    requires AllowedRun(tree, sc, cfg, Open(sc, im), rs) && NoForks(sc, cfg, Open(sc, im), rs)
    requires n < |Run(sc, cfg, Open(sc, im), rs).log|
    ensures var log := Run(sc, cfg, Open(sc, im), rs).log; var o := Open(sc, log[n]);
      && Restartable(tree, sc, log[n]) && Now(o) == LastSettled(sc, log, n) && Live(tree, sc, o)
      && forall i :: 0 <= i < |o.log| ==> Restartable(tree, sc, o.log[i]) && Now(Open(sc, o.log[i])) == Now(o)
  {
    hide Live, Run, AllowedRun, NoForks, Open, Recoverable, Durable, Ideal;
    var s := Open(sc, im);
    OpenIsLive(tree, sc, im);
    RunKeeps(tree, sc, cfg, s, rs);
    var log := Run(sc, cfg, s, rs).log;
    forall i | 0 < i < |log| ensures StepOk(tree, sc, log[i - 1], log[i]) {
      if i < |s.log| {
        assert log[i] == log[..|s.log|][i] && log[i - 1] == log[..|s.log|][i - 1];
      }
    }
    assert log[0] == log[..|s.log|][0];
    assert n == 0 || StepOk(tree, sc, log[n - 1], log[n]);
    var d := log[n];
    assert Restartable(tree, sc, d);
    IdealIsLastSettled(tree, sc, log, n);
    RestartRestores(sc, d);
    OpenIsLive(tree, sc, d);
    var o := Open(sc, d);
    forall i | 0 <= i < |o.log| ensures Restartable(tree, sc, o.log[i]) && Now(Open(sc, o.log[i])) == Now(o) {
      SameIdealDurable(tree, sc, d, o.log[i]);
      RestartRestores(sc, o.log[i]);
    }
  }

  // ---------- after a restart ----------

  /** What check looks for is so after every restart: received blocks exactly from first to head, and a row for each
      entry. */
  lemma CheckFindsNothing(tree: Tree, sc: Config, im: Image)
    requires Restartable(tree, sc, im)
    ensures var s := Open(sc, im); var d := Now(s);
      && (forall b: u32 :: ReceivedKey(b) in d.rows <==> s.st.first <= b <= s.st.head && s.st.head != 0)
      && (forall x :: x in d.entries ==> PkOf(sc, x).Some? && PkOf(sc, x).value in d.rows)
  {
    hide IsRow, EntrySet, ReceivedKey, ReceivedId, PkOf, Open, EntriesOf, BlockOf;
    OpenIsLive(tree, sc, im);
    var s := Open(sc, im);
    SaneRows(sc, s);
    RestartRestores(sc, im);
    assert Now(s).rows + map[] == Now(s).rows;
    forall x | x in Now(s).entries ensures PkOf(sc, x).Some? && PkOf(sc, x).value in Now(s).rows {
      InEntrySet(sc, Now(s).rows, x);
    }
  }

  /** get_positions finds all blocks from the irreversible one to the head exactly when none of them has been
      trimmed. */
  lemma PositionsAreThere(tree: Tree, rows: Db, st: Status)
    requires Chain(tree, rows, st) && st.head != 0 && st.irreversible <= st.head
    ensures (forall b: u32 :: st.irreversible <= b <= st.head ==> ReceivedId(rows, b).Some?) <==>
      st.first <= st.irreversible
  {
    hide ReceivedKey;
    forall b: u32 | st.first <= b <= st.head ensures ReceivedId(rows, b).Some? {
      assert LinkAt(tree, rows, st.first, b);
    }
    assert ReceivedKey(st.irreversible) in rows <==> st.first <= st.irreversible;
    assert ReceivedId(rows, st.irreversible).Some? ==> ReceivedKey(st.irreversible) in rows;
  }
}
