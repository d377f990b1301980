/** What a message leaves in the session, in terms of the message alone. */
module BlockRows {
  import opened Bytes
  import opened Store
  import opened KeyCodec
  import opened Tables
  import opened Trimming
  import opened History
  import opened Messages
  import opened Recovery
  import opened Runs
  import opened Crashes
  import opened ForkWindows

  // ---------- the rows of a message ----------

  /** A row that the message brings: its block, a row of a delta, or a trace. */
  ghost predicate Brings(m: Message, name: Name, present: bool, v: Bytes)
  {
    || (name == BLOCK_INFO && present && m.block == Some(v))
    || (exists i, j :: 0 <= i < |m.deltas| && IsRowOf(m.deltas[i], j, name, present, v))
    || (name == ACTION_TRACE && present && v in m.traces)
  }

  predicate IsRowOf(d: TableDelta, j: int, name: Name, present: bool, v: Bytes)
  {
    0 <= j < |d.rows| && d.name == name && d.rows[j] == (present, v)
  }

  lemma {:induction false} RowStepsAre(d: TableDelta, n: nat, name: Name, present: bool, v: Bytes)
    requires n <= |d.rows|
    ensures Add(name, present, v) in RowSteps(d, n) <==> exists j :: 0 <= j < n && IsRowOf(d, j, name, present, v)
  {
    if n > 0 {
      RowStepsAre(d, n - 1, name, present, v);
      var step := Add(name, present, v);
      if step in RowSteps(d, n) && step !in RowSteps(d, n - 1) { assert IsRowOf(d, n - 1, name, present, v); }
    }
  }

  lemma {:induction false} DeltaStepsAre(ds: seq<TableDelta>, name: Name, present: bool, v: Bytes)
    ensures Add(name, present, v) in DeltaSteps(ds) <==>
      exists i, j :: 0 <= i < |ds| && IsRowOf(ds[i], j, name, present, v)
  {
    hide RowSteps, IsRowOf;
    if ds != [] {
      var n := |ds| - 1;
      DeltaStepsAre(ds[..n], name, present, v);
      RowStepsAre(ds[n], |ds[n].rows|, name, present, v);
      if i, j :| 0 <= i < |ds| && IsRowOf(ds[i], j, name, present, v) {
        RowInside(ds[i], j, name, present, v);
        if i < n { assert IsRowOf(ds[..n][i], j, name, present, v); }
      }
      if i, j :| 0 <= i < n && IsRowOf(ds[..n][i], j, name, present, v) {
        assert IsRowOf(ds[i], j, name, present, v);
      }
    }
  }

  lemma RowInside(d: TableDelta, j: int, name: Name, present: bool, v: Bytes)
    requires IsRowOf(d, j, name, present, v)
    ensures 0 <= j < |d.rows|
  {
  }

  lemma {:induction false} TraceStepsAre(traces: seq<Bytes>, name: Name, present: bool, v: Bytes)
    ensures Add(name, present, v) in TraceSteps(traces) <==> name == ACTION_TRACE && present && v in traces
  {
    if traces != [] {
      TraceStepsAre(traces[..|traces| - 1], name, present, v);
    }
  }

  lemma StepsAreBrought(m: Message, name: Name, present: bool, v: Bytes)
    ensures Add(name, present, v) in ResultOf(m).steps <==> Brings(m, name, present, v)
  {
    hide DeltaSteps, TraceSteps, IsRowOf;
    DeltaStepsAre(m.deltas, name, present, v);
    TraceStepsAre(m.traces, name, present, v);
  }

  // ---------- storing them ----------

  /** add_row finds the row's key and all its entries. */
  predicate CanStore(sc: Schema, num: u32, name: Name, present: bool, v: Bytes)
  {
    RowKey(sc, num, name, present, v).Some? && RowEntries(sc, num, name, present, v).Some?
  }

  predicate StepStores(sc: Schema, num: u32, step: Step)
  {
    step.Add? ==> CanStore(sc, num, step.name, step.present, step.value)
  }

  predicate IsIn(sc: Schema, rows: Db, num: u32, name: Name, present: bool, v: Bytes)
  {
    var k := RowKey(sc, num, name, present, v);
    k.Some? && k.value in rows && rows[k.value] == v
  }

  predicate StepIsIn(sc: Schema, rows: Db, num: u32, step: Step)
  {
    step.Add? ==> IsIn(sc, rows, num, step.name, step.present, step.value)
  }

  /** A session stays open exactly if every row can be stored, and then has them all. */
  lemma {:induction false} DoAllStores(sc: Config, s: Session, num: u32, steps: seq<Step>)
    requires s.alive && Once(sc, num, steps)
    ensures var r := DoAll(sc, s, num, steps);
      && (r.alive <==> forall i :: 0 <= i < |steps| ==> StepStores(sc, num, steps[i]))
      && (r.alive ==> forall i :: 0 <= i < |steps| ==> StepIsIn(sc, All(r), num, steps[i]))
    decreases |steps|
  {
    hide RowKey, RowEntries, ReceivedKey, EndWrite;
    if steps != [] {
      var n := |steps| - 1;
      var init, step := steps[..n], steps[n];
      OnceInit(sc, num, steps);
      DoAllStores(sc, s, num, init);
      var m := DoAll(sc, s, num, init);
      assert forall i :: 0 <= i < n ==> init[i] == steps[i];
      if m.alive {
        LastStores(sc, m, num, steps);
      }
    }
  }

  lemma LastStores(sc: Config, m: Session, num: u32, steps: seq<Step>)
    requires m.alive && steps != [] && Once(sc, num, steps)
    requires forall i :: 0 <= i < |steps| - 1 ==> StepIsIn(sc, All(m), num, steps[i])
    ensures var r := Do(sc, m, num, steps[|steps| - 1]);
      && (r.alive <==> StepStores(sc, num, steps[|steps| - 1]))
      && (r.alive ==> forall i :: 0 <= i < |steps| ==> StepIsIn(sc, All(r), num, steps[i]))
  {
    hide RowKey, RowEntries, ReceivedKey;
    var n := |steps| - 1;
    var r := Do(sc, m, num, steps[n]);
    if steps[n].Flush? {
      assert All(r) == All(m);
    } else if r.alive {
      forall i | 0 <= i < n ensures StepIsIn(sc, All(r), num, steps[i]) {
        assert StepIsIn(sc, All(m), num, steps[i]);
        if steps[i].Add? { assert StepKey(sc, num, steps[i]) != StepKey(sc, num, steps[n]); }
      }
    }
  }

  // ---------- the session after a message ----------

  /** The rows that stay: all of them, or at a fork those of the blocks before it. */
  ghost function Staying(s: Session, num: u32): Db
  {
    if num <= s.st.head then Left(s, num) else All(s)
  }

  /** The id of the block before: of the head, or at a fork of the block received before it, if that is there. */
  ghost function IdBefore(s: Session, num: u32): Id
    requires 1 <= num
  {
    if num > s.st.head then s.st.headId
    else if ReceivedId(All(s), num - 1).Some? then ReceivedId(All(s), num - 1).value else ZERO
  }

  /** The first block that stays; a session without any begins with this one. */
  ghost function StartOf(s: Session, num: u32): u32
    requires 1 <= num
  {
    var kept := if num > s.st.head then s.st.first
                else if ReceivedId(All(s), num - 1).None? then 0
                else if s.st.first < num - 1 then s.st.first else num - 1;
    if kept == 0 then num else kept
  }

  predicate StopsBefore(cfg: Settings, m: Message)
  {
    cfg.stopBefore != 0 && m.pos.num >= cfg.stopBefore
  }

  /** The message's previous block is the block before. */
  ghost predicate Connects(s: Session, m: Message)
    requires 1 <= m.pos.num
  {
    IdBefore(s, m.pos.num) == ZERO || (m.prev.Some? && m.prev.value.id == IdBefore(s, m.pos.num))
  }

  /** Blocks from four before the irreversible one on, and every 200th, are written at once; numbers have 32 bits. */
  predicate AtOnce(m: Message)
  {
    m.pos.num % 200 == 0 || (m.pos.num + 4) % 0x1_0000_0000 >= m.irreversible.num
  }

  /** The rows that stay, all that the message brings with their values, its received_block row, and no others. */
  ghost predicate HasRows(sc: Config, s: Session, m: Message, all: Db)
  {
    var num, left := m.pos.num, Staying(s, m.pos.num);
    && (forall k :: k in left ==> k in all && all[k] == left[k])
    && (forall name, present, v :: Brings(m, name, present, v) ==> IsIn(sc, all, num, name, present, v))
    && ReceivedId(all, num) == Some(m.pos.id)
    && forall k :: k in all && k !in left && k != ReceivedKey(num) ==>
         exists name, present, v :: Brings(m, name, present, v) && RowKey(sc, num, name, present, v) == Some(k)
  }

  /** The session is at the message's block, with these rows, less those of a trim; what is written at once has the
      session's status, in which nothing is irreversible after the head. */
  ghost predicate StandsAt(sc: Config, cfg: Settings, s: Session, m: Message, all: Db, s': Session)
    requires 1 <= m.pos.num
  {
    var num, irr, start := m.pos.num, m.irreversible.num, StartOf(s, m.pos.num);
    var end := if num < irr then num else irr;
    var trims := cfg.trim && AtOnce(m) && start < end;
    var first := if trims then end else start;
    && s'.st == Status(num, m.pos.id, irr, m.irreversible.id, first)
    && All(s') == (if trims then all - Trimmed(sc, all, start, end) else all)
    && if AtOnce(m) then
         && s'.content == map[] && s'.index == {}
         && Now(s').status == Some(Status(num, m.pos.id, end, if irr < num then m.irreversible.id else m.pos.id, first))
       else s.st.head < num ==> Now(s').status == Now(s).status
  }

  lemma StayingAfterSwitch(tree: Tree, sc: Config, s: Session, num: u32)
    requires Live(tree, sc, s) && 1 <= num && (num <= s.st.head ==> s.st.irreversible < num)
    ensures var s1 := SwitchForks(sc, s, num);
      && All(s1) == Staying(s, num) && s1.st.headId == IdBefore(s, num)
      && (if s1.st.first == 0 then num else s1.st.first) == StartOf(s, num)
      && (s.st.head < num ==> s1 == s)
  {
    hide ReceivedId, EntrySet, BlockOf, Restrict, From, Truncate, Clamp, Live;
    if num <= s.st.head {
      var e := EndWrite(s, true);
      assert Now(e).rows == All(s);
      TruncateResult(sc, e, num);
      WriteNothing(Truncate(sc, e, num));
      assert Now(SwitchForks(sc, s, num)).rows + map[] == Now(SwitchForks(sc, s, num)).rows;
    }
  }

  /** add_row succeeds for every row of the message. */
  ghost predicate AllCanBeStored(sc: Schema, m: Message)
  {
    forall name, present, v :: Brings(m, name, present, v) ==> CanStore(sc, m.pos.num, name, present, v)
  }

  lemma StepOf(m: Message, i: nat)
    requires i < |ResultOf(m).steps| && ResultOf(m).steps[i].Add?
    ensures var step := ResultOf(m).steps[i]; Brings(m, step.name, step.present, step.value)
  {
    hide ResultOf, Brings;
    var step := ResultOf(m).steps[i];
    StepsAreBrought(m, step.name, step.present, step.value);
    assert step == Add(step.name, step.present, step.value);
  }

  /** Every row can be stored exactly if every step can. */
  lemma AllStorable(sc: Schema, m: Message)
    ensures (forall i :: 0 <= i < |ResultOf(m).steps| ==> StepStores(sc, m.pos.num, ResultOf(m).steps[i])) <==>
      AllCanBeStored(sc, m)
  {
    hide ResultOf, Brings, CanStore;
    var steps := ResultOf(m).steps;
    if forall i :: 0 <= i < |steps| ==> StepStores(sc, m.pos.num, steps[i]) {
      forall name, present, v | Brings(m, name, present, v) ensures CanStore(sc, m.pos.num, name, present, v) {
        StepsAreBrought(m, name, present, v);
        var i :| 0 <= i < |steps| && steps[i] == Add(name, present, v);
        assert StepStores(sc, m.pos.num, steps[i]);
      }
    }
    if forall name, present, v :: Brings(m, name, present, v) ==> CanStore(sc, m.pos.num, name, present, v) {
      forall i | 0 <= i < |steps| ensures StepStores(sc, m.pos.num, steps[i]) {
        if steps[i].Add? { StepOf(m, i); }
      }
    }
  }

  /** The rows after all steps and the advance to the block. */
  lemma RowsAfterSteps(tree: Tree, sc: Config, s: Session, s1: Session, m: Message)
    requires Live(tree, sc, s1) && AllBelow(s1, m.pos.num) && Allowed(tree, sc, s1, ResultOf(m))
    requires All(s1) == Staying(s, m.pos.num) && 1 <= m.pos.num
    requires DoAll(sc, s1, m.pos.num, ResultOf(m).steps).alive
    ensures HasRows(sc, s, m, All(Advance(DoAll(sc, s1, m.pos.num, ResultOf(m).steps), ResultOf(m))))
  {
    hide *;
    var num, r := m.pos.num, ResultOf(m);
    AllowedParts(tree, sc, s1, m);
    LiveAlive(tree, sc, s1);
    LiveSaneHere(tree, sc, s1);
    var m2 := DoAll(sc, s1, num, r.steps);
    StepsKeep(sc, s1, num, r.steps);
    DoAllStores(sc, s1, num, r.steps);
    OthersUntouched(sc, s1, m2, num, r.steps, 0);
    BelowNum(s1, num);
    AdvanceSane(sc, m2, r);
    AdvancedRows(sc, s, s1, m, m2, All(Advance(m2, r)));
  }

  lemma AllowedParts(tree: Tree, sc: Config, s: Session, m: Message)
    requires Allowed(tree, sc, s, ResultOf(m))
    ensures Once(sc, m.pos.num, ResultOf(m).steps) && ResultOf(m).pos == m.pos
  {
  }

  lemma LiveSaneHere(tree: Tree, sc: Config, s: Session)
    requires Live(tree, sc, s)
    ensures Sane(sc, s)
  {
  }

  lemma AdvancedRows(sc: Config, s: Session, s1: Session, m: Message, m2: Session, all: Db)
    requires AllBelow(s1, m.pos.num) && All(s1) == Staying(s, m.pos.num)
    requires Extends(sc, s1, m2, m.pos.num, ResultOf(m).steps) && Once(sc, m.pos.num, ResultOf(m).steps)
    requires all == All(m2)[ReceivedKey(m.pos.num) := ReceivedValue(m.pos.num, m.pos.id)]
    requires ReceivedKey(m.pos.num) !in All(m2)
    requires forall i :: 0 <= i < |ResultOf(m).steps| ==> StepIsIn(sc, All(m2), m.pos.num, ResultOf(m).steps[i])
    ensures HasRows(sc, s, m, all)
  {
    hide *;
    ReceivedRow(sc, m.pos.num, m.pos.id);
    LeftStays(sc, s1, m, m2, all);
    BroughtAreIn(sc, m, All(m2), all);
    NewAreBrought(sc, s1, m, m2, all);
    ReceivedIsIn(all, m.pos);
    AreRows(sc, s, m, all);
  }

  lemma AreRows(sc: Config, s: Session, m: Message, all: Db)
    requires forall k :: k in Staying(s, m.pos.num) ==> k in all && all[k] == Staying(s, m.pos.num)[k]
    requires forall name, present, v :: Brings(m, name, present, v) ==> IsIn(sc, all, m.pos.num, name, present, v)
    requires ReceivedId(all, m.pos.num) == Some(m.pos.id)
    requires OnlyBrought(sc, Staying(s, m.pos.num), m, all)
    ensures HasRows(sc, s, m, all)
  {
    hide RowKey, Brings, Staying, IsIn, ReceivedId;
  }

  ghost predicate OnlyBrought(sc: Schema, left: Db, m: Message, all: Db)
  {
    forall k :: k in all && k !in left && k != ReceivedKey(m.pos.num) ==>
      exists name, present, v :: Brings(m, name, present, v) && RowKey(sc, m.pos.num, name, present, v) == Some(k)
  }

  lemma LeftStays(sc: Config, s1: Session, m: Message, m2: Session, all: Db)
    requires AllBelow(s1, m.pos.num) && Extends(sc, s1, m2, m.pos.num, ResultOf(m).steps)
    requires all == All(m2)[ReceivedKey(m.pos.num) := ReceivedValue(m.pos.num, m.pos.id)]
    ensures forall k :: k in All(s1) ==> k in all && all[k] == All(s1)[k]
  {
    hide ReceivedKey, ReceivedValue, StepKey, All, BlockOf, ResultOf;
    BlockOfReceived(m.pos.num);
  }

  lemma BroughtAreIn(sc: Config, m: Message, rows: Db, all: Db)
    requires all == rows[ReceivedKey(m.pos.num) := ReceivedValue(m.pos.num, m.pos.id)]
      && ReceivedKey(m.pos.num) !in rows
    requires forall i :: 0 <= i < |ResultOf(m).steps| ==> StepIsIn(sc, rows, m.pos.num, ResultOf(m).steps[i])
    ensures forall name, present, v :: Brings(m, name, present, v) ==> IsIn(sc, all, m.pos.num, name, present, v)
  {
    hide ReceivedKey, ReceivedValue, RowKey, Brings, ResultOf;
    var steps := ResultOf(m).steps;
    forall name, present, v | Brings(m, name, present, v) ensures IsIn(sc, all, m.pos.num, name, present, v) {
      StepsAreBrought(m, name, present, v);
      var i :| 0 <= i < |steps| && steps[i] == Add(name, present, v);
      assert StepIsIn(sc, rows, m.pos.num, steps[i]);
    }
  }

  lemma NewAreBrought(sc: Config, s1: Session, m: Message, m2: Session, all: Db)
    requires Extends(sc, s1, m2, m.pos.num, ResultOf(m).steps)
    requires all == All(m2)[ReceivedKey(m.pos.num) := ReceivedValue(m.pos.num, m.pos.id)]
    ensures OnlyBrought(sc, All(s1), m, all)
  {
    hide ReceivedKey, ReceivedValue, RowKey, Brings, All, ResultOf;
    var num, steps := m.pos.num, ResultOf(m).steps;
    forall k | k in all && k !in All(s1) && k != ReceivedKey(num)
      ensures exists name, present, v :: Brings(m, name, present, v) && RowKey(sc, num, name, present, v) == Some(k)
    {
      var i :| 0 <= i < |steps| && StepKey(sc, num, steps[i]) == Some(k);
      StepOf(m, i);
    }
  }

  lemma ReceivedIsIn(all: Db, pos: Position)
    requires ReceivedKey(pos.num) in all && all[ReceivedKey(pos.num)] == ReceivedValue(pos.num, pos.id)
    requires |ReceivedValue(pos.num, pos.id)| == 36 && ReceivedValue(pos.num, pos.id)[4..36] == pos.id
    ensures ReceivedId(all, pos.num) == Some(pos.id)
  {
    hide ReceivedKey, ReceivedValue;
  }

  /** All rows are in the database, with the session's status. */
  ghost predicate WrittenOut(s: Session, s': Session)
  {
    var st := s.st;
    && Now(s').rows == All(s) && Now(s').entries == Now(s).entries + s.index
    && Now(s').status == Some(if st.irreversible < st.head then st
                              else Status(st.head, st.headId, st.head, st.headId, st.first))
  }

  lemma StopWrites(s: Session)
    ensures WrittenOut(s, Dead(EndWrite(s, true)))
  {
  }

  lemma AllowedFork(tree: Tree, sc: Config, s: Session, r: BlockResult)
    requires Allowed(tree, sc, s, r)
    ensures r.pos.num <= s.st.head ==> s.st.irreversible < r.pos.num
  {
    hide Once;
  }

  lemma DeadIsDead(s: Session)
    ensures !Dead(s).alive
  {
  }

  lemma AdvanceIs(s: Session, m: Message)
    ensures var a := Advance(s, ResultOf(m));
      && a.log == s.log
      && a.st == Status(m.pos.num, m.pos.id, m.irreversible.num, m.irreversible.id,
                        if s.st.first == 0 then m.pos.num else s.st.first)
  {
  }

  /** Writing and trimming, for a session without open batches after it. */
  lemma CommitIs(sc: Config, cfg: Settings, a: Session)
    ensures var t := Commit(sc, cfg, a); var st := a.st;
      var end := if st.head < st.irreversible then st.head else st.irreversible;
      var trims := cfg.trim && st.first < end;
      && t.content == map[] && t.index == {}
      && t.st == (if trims then st.(first := end) else st)
      && All(t) == (if trims then All(a) - Trimmed(sc, All(a), st.first, end) else All(a))
      && Now(t).status == Some(Status(st.head, st.headId, end,
                                     if st.irreversible < st.head then st.irreversibleId else st.headId, t.st.first))
  {
    hide Trimmed, EntrySet, Restrict;
    var e := EndWrite(a, true);
    assert Now(e).rows == All(a);
    assert Now(e).rows + map[] == Now(e).rows;
    var t := Commit(sc, cfg, a);
    assert Now(t).rows + map[] == Now(t).rows;
  }

  lemma StandsAfter(tree: Tree, sc: Config, cfg: Settings, s: Session, s1: Session, m: Message)
    requires Live(tree, sc, s1) && AllBelow(s1, m.pos.num) && Allowed(tree, sc, s1, ResultOf(m)) && 1 <= m.pos.num
    requires (if s1.st.first == 0 then m.pos.num else s1.st.first) == StartOf(s, m.pos.num)
    requires (s.st.head < m.pos.num ==> s1 == s) && DoAll(sc, s1, m.pos.num, ResultOf(m).steps).alive
    ensures var a := Advance(DoAll(sc, s1, m.pos.num, ResultOf(m).steps), ResultOf(m));
      StandsAt(sc, cfg, s, m, All(a), if AtOnce(m) then Commit(sc, cfg, a) else a)
  {
    hide Live, DoAll, Advance, Commit, All, StartOf, AllBelow, Allowed, ResultOf, Extends, Sane, Grows, Once, Trimmed;
    AllowedParts(tree, sc, s1, m);
    LiveAlive(tree, sc, s1);
    LiveSaneHere(tree, sc, s1);
    var m2 := DoAll(sc, s1, m.pos.num, ResultOf(m).steps);
    StepsKeep(sc, s1, m.pos.num, ResultOf(m).steps);
    SameStored(sc, s1, m2);
    AdvanceIs(m2, m);
    CommitIs(sc, cfg, Advance(m2, ResultOf(m)));
  }

  lemma SameStored(sc: Config, s: Session, t: Session)
    requires Sane(sc, s) && Sane(sc, t) && StatusOf(Now(t)) == StatusOf(Now(s))
    ensures Now(t).status == Now(s).status
  {
    hide Recoverable, EntrySet;
  }

  // ---------- writing and standing ----------

  // ---------- partial writes ----------

  /** How often a delta's rows are written out before the next of them is added: every 10000 rows, if there are more
      than that. */
  function Parts(rows: nat): nat
  {
    if rows > 10000 then (rows + 9999) / 10000 else 0
  }

  function AllParts(ds: seq<TableDelta>): nat
  {
    if ds == [] then 0 else AllParts(ds[..|ds| - 1]) + Parts(|ds[|ds| - 1].rows|)
  }

  function Flushes(steps: seq<Step>): nat
  {
    if steps == [] then 0 else Flushes(steps[..|steps| - 1]) + if steps[|steps| - 1].Flush? then 1 else 0
  }

  lemma {:induction false} FlushesConcat(a: seq<Step>, b: seq<Step>)
    ensures Flushes(a + b) == Flushes(a) + Flushes(b)
  {
    if b == [] {
      assert a + b == a;
    } else {
      FlushesConcat(a, b[..|b| - 1]);
      assert (a + b)[..|a + b| - 1] == a + b[..|b| - 1];
    }
  }

  lemma {:induction false} RowFlushes(d: TableDelta, n: nat)
    requires n <= |d.rows|
    ensures Flushes(RowSteps(d, n)) == if |d.rows| > 10000 then (n + 9999) / 10000 else 0
  {
    if n > 0 {
      RowFlushes(d, n - 1);
      var flush: seq<Step> := if |d.rows| > 10000 && (n - 1) % 10000 == 0 then [Flush] else [];
      var add := [Add(d.name, d.rows[n - 1].0, d.rows[n - 1].1)];
      FlushesConcat(RowSteps(d, n - 1) + flush, add);
      FlushesConcat(RowSteps(d, n - 1), flush);
      assert Flushes([]) == 0 && [Flush][..0] == [] && add[..0] == [];
      assert Flushes([Flush]) == 1 && Flushes(add) == 0;
    }
  }

  lemma {:induction false} DeltaFlushes(ds: seq<TableDelta>)
    ensures Flushes(DeltaSteps(ds)) == AllParts(ds)
  {
    hide RowSteps, Flushes;
    if ds == [] {
      NoFlushes();
    } else {
      var n := |ds| - 1;
      DeltaFlushes(ds[..n]);
      RowFlushes(ds[n], |ds[n].rows|);
      FlushesConcat(DeltaSteps(ds[..n]), RowSteps(ds[n], |ds[n].rows|));
    }
  }

  lemma NoFlushes()
    ensures Flushes([]) == 0
  {
  }

  lemma {:induction false} TraceFlushes(traces: seq<Bytes>)
    ensures Flushes(TraceSteps(traces)) == 0
  {
    if traces != [] {
      var n := |traces| - 1;
      TraceFlushes(traces[..n]);
      assert TraceSteps(traces)[..|TraceSteps(traces)| - 1] == TraceSteps(traces[..n]);
    }
  }

  lemma {:induction false} EachFlushWrites(sc: Config, s: Session, num: u32, steps: seq<Step>)
    ensures var r := DoAll(sc, s, num, steps); r.alive ==> |r.log| == |s.log| + 2 * Flushes(steps)
  {
    hide RowKey, RowEntries;
    if steps != [] {
      EachFlushWrites(sc, s, num, steps[..|steps| - 1]);
    }
  }

  /** While a message's rows are added there are two writes for each part of a long delta, and no others. */
  lemma PartialWrites(sc: Config, s: Session, m: Message)
    ensures var r := DoAll(sc, s, m.pos.num, ResultOf(m).steps);
      r.alive ==> |r.log| == |s.log| + 2 * AllParts(m.deltas)
  {
    hide DoAll, Flushes, DeltaSteps, TraceSteps;
    var block := BlockSteps(m.block);
    BlockFlushes(m.block);
    FlushesConcat(block + DeltaSteps(m.deltas), TraceSteps(m.traces));
    FlushesConcat(block, DeltaSteps(m.deltas));
    DeltaFlushes(m.deltas);
    TraceFlushes(m.traces);
    EachFlushWrites(sc, s, m.pos.num, ResultOf(m).steps);
  }

  lemma BlockFlushes(block: Option<Bytes>)
    ensures Flushes(BlockSteps(block)) == 0
  {
    NoFlushes();
    if block.Some? {
      assert [Add(BLOCK_INFO, true, block.value)][..0] == [];
    }
  }

  // ---------- the whole message ----------

  /** After a message that does not stop the session, once forks have been switched. */
  lemma AfterSwitch(tree: Tree, sc: Config, cfg: Settings, s: Session, s1: Session, m: Message) returns (all: Db)
    requires Live(tree, sc, s1) && AllBelow(s1, m.pos.num) && Allowed(tree, sc, s1, ResultOf(m)) && 1 <= m.pos.num
    requires All(s1) == Staying(s, m.pos.num) && s1.st.headId == IdBefore(s, m.pos.num)
    requires (if s1.st.first == 0 then m.pos.num else s1.st.first) == StartOf(s, m.pos.num)
    requires s.st.head < m.pos.num ==> s1 == s
    ensures var s' := History.Process(sc, cfg, s1, ResultOf(m));
      && (s'.alive <==> Connects(s, m) && AllCanBeStored(sc, m))
      && (s'.alive ==> HasRows(sc, s, m, all) && StandsAt(sc, cfg, s, m, all, s'))
  {
    hide Live, AllCanBeStored, DoAll, Advance, HasRows, StandsAt, Staying, IdBefore, StartOf, Commit, Allowed, All,
         AllBelow, ResultOf, Once, StepStores, StepIsIn;
    var r := ResultOf(m);
    SamePlace(m);
    LiveAlive(tree, sc, s1);
    AllowedParts(tree, sc, s1, m);
    AllStorable(sc, m);
    DoAllStores(sc, s1, m.pos.num, r.steps);
    DeadIsDead(s1);
    var m2 := DoAll(sc, s1, m.pos.num, r.steps);
    all := All(Advance(m2, r));
    if m2.alive {
      RowsAfterSteps(tree, sc, s, s1, m);
      StandsAfter(tree, sc, cfg, s, s1, m);
      StaysAlive(sc, cfg, m2, r);
    }
  }

  lemma SamePlace(m: Message)
    ensures var r := ResultOf(m); r.pos == m.pos && r.prev == m.prev && r.irreversible == m.irreversible
  {
  }

  lemma StaysAlive(sc: Config, cfg: Settings, s: Session, r: BlockResult)
    requires s.alive
    ensures Advance(s, r).alive && Commit(sc, cfg, Advance(s, r)).alive
  {
    hide Trimmed, EntrySet, Restrict;
  }

  /** received, for a message that keeps the node's promises. The session goes on exactly if the block is not the one to
      stop before, connects to the block before it, and all its rows can be stored. Then it has exactly these rows and
      stands at the block. A stop writes out all that the session has. */
  lemma ReceivedExactly(tree: Tree, sc: Config, cfg: Settings, s: Session, m: Message) returns (all: Db)
    requires Live(tree, sc, s) && Allowed(tree, sc, s, ResultOf(m)) && 1 <= m.pos.num
    ensures var s' := Received(sc, cfg, s, ResultOf(m));
      && (s'.alive <==> !StopsBefore(cfg, m) && Connects(s, m) && AllCanBeStored(sc, m))
      && (s'.alive ==> HasRows(sc, s, m, all) && StandsAt(sc, cfg, s, m, all, s'))
      && (StopsBefore(cfg, m) ==> WrittenOut(s, s'))
  {
    hide Live, AllCanBeStored, SwitchForks, EndWrite, HasRows, StandsAt, Staying, IdBefore, StartOf, Process,
         WrittenOut, Allowed, All, AllBelow, ResultOf, Connects;
    var num, r := m.pos.num, ResultOf(m);
    SamePlace(m);
    LiveAlive(tree, sc, s);
    all := map[];
    if StopsBefore(cfg, m) {
      StopWrites(s);
      DeadIsDead(EndWrite(s, true));
    } else {
      AllowedFork(tree, sc, s, r);
      StayingAfterSwitch(tree, sc, s, num);
      SwitchKeeps(tree, sc, s, num);
      var s1 := SwitchForks(sc, s, num);
      AllowedAfterSwitch(tree, sc, s, s1, r);
      all := AfterSwitch(tree, sc, cfg, s, s1, m);
    }
  }
}
