/** The filler itself: flm_session of fill_rocksdb_plugin.cpp, over the bytes of the database. */
module Filler {
  import opened Bytes
  import opened Store
  import opened KeyCodec
  import opened Tables
  import opened Trimming
  import opened History
  import opened Images
  import opened Scans
  import opened Batches
  import opened Messages
  import opened TrimScan
  import opened Recovery
  import opened Runs
  import opened Crashes
  import opened BlockRows

  class FlmSession {
    const sc: Config
    const settings: Settings
    var db: Db
    var activeContent: seq<Op>
    var activeIndex: seq<Op>
    var head: u32
    var headId: Id
    var irreversible: u32
    var irreversibleId: Id
    var first: u32
    var alive: bool
    ghost var log: seq<Image>

    ghost function State(): AnySession
      reads this
    {
      Session(log, Added(activeContent), Added(activeIndex).Keys,
        Status(head, headId, irreversible, irreversibleId, first), alive)
    }

    /** The database holds what this program writes, the log ends with it, and the batches are to add rows and
        entries. */
    ghost predicate Valid()
      reads this
      ensures Valid() ==> State().log != []
    {
      && log != [] && log[|log| - 1] == ImageOf(db) && Shaped(db) && GoodRows(sc, ImageOf(db).rows)
      && Puts(activeContent) && GoodRows(sc, Added(activeContent))
      && Puts(activeIndex) && EntryPuts(Added(activeIndex))
    }

    constructor (sc: Config, settings: Settings, db: Db)
      requires Shaped(db) && GoodRows(sc, ImageOf(db).rows)
      ensures Valid() && this.sc == sc && this.settings == settings && this.db == db
      ensures State() == Session([ImageOf(db)], map[], {}, EMPTY, true)
    {
      this.sc, this.settings, this.db := sc, settings, db;
      activeContent, activeIndex := [], [];
      head, headId, irreversible, irreversibleId, first := 0, ZERO, 0, ZERO, 0;
      alive := true;
      log := [ImageOf(db)];
      new;
      hide ImageOf, Shaped, EntryPuts, GoodRows, Added, Puts;
      NothingAdded(sc);
    }

    method Write(batch: seq<Op>)
      modifies this`db, this`log
      ensures db == Apply(old(db), batch) && log == old(log) + [ImageOf(db)]
    {
      db := Apply(db, batch);
      log := log + [ImageOf(db)];
    }

    /** An exception leaves the session closed; what its batches held is not written. */
    method Fail()
      requires Valid()
      modifies this`activeContent, this`activeIndex, this`alive
      ensures Valid() && State() == Dead(old(State()))
    {
      hide ImageOf, Shaped, EntryPuts, GoodRows, Added, Puts;
      NothingAdded(sc);
      activeContent, activeIndex, alive := [], [], false;
    }

    method WriteFillStatus(batch: seq<Op>) returns (r: seq<Op>)
      ensures r == batch + [Put(STATUS_KEY, StatusBytes(Clamp(State().st)))]
    {
      var status :=
        if irreversible < head then Status(head, headId, irreversible, irreversibleId, first)
        else Status(head, headId, head, headId, first);
      r := batch + [Put(STATUS_KEY, StatusBytes(status))];
    }

    method EndWrite(fill: bool)
      requires Valid()
      modifies this`db, this`log, this`activeContent, this`activeIndex
      ensures Valid() && State() == History.EndWrite(old(State()), fill)
      ensures activeContent == [] && activeIndex == []
    {
      hide ImageOf, STATUS_KEY, StatusBytes, Shaped, EntryPuts, Apply, GoodRows, Added, Puts, Clamp;
      WrittenImages(sc, db, activeContent, activeIndex, Clamp(State().st));
      var index := activeIndex;
      if fill {
        index := WriteFillStatus(activeIndex);
      }
      Write(activeContent);
      Write(index);
      activeContent, activeIndex := [], [];
      NothingAdded(sc);
    }

    method AddRow(name: Name, num: u32, present: bool, v: Bytes)
      requires Valid() && State().alive && 1 <= num
      modifies this`activeContent, this`activeIndex, this`alive
      ensures Valid() && State() == Do(sc, old(State()), num, Add(name, present, v))
    {
      hide ImageOf, Shaped, EntryPuts, GoodRows, Added, Puts, RowPrefix, Extract, Fill, AllIds, EntryKeys;
      if name !in sc {
        Fail();
        return;
      }
      var t := sc[name];
      var found := FillPositions(t.fields, AllIds(|t.fields|), v, 0);
      if found.None? {
        Fail();
        return;
      }
      var pos := found.value.1;
      var key := ExtractKeys(RowPrefix(num, name, present), t.fields, t.keys, v, pos);
      if key.None? {
        Fail();
        return;
      }
      var xs := IndexKeys(t, name, num, present, v, pos);
      if xs.None? {
        Fail();
        return;
      }
      RowAdded(sc, activeContent, activeIndex, name, num, present, v);
      activeContent := activeContent + [Put(key.value, v)];
      activeIndex := activeIndex + PutsOf(xs.value);
    }

    predicate IsAlive()
      reads this
      ensures IsAlive() == State().alive
    {
      alive
    }

    /** receive_block. */
    method ReceiveBlock(num: u32, block: Option<Bytes>)
      requires Valid() && State().alive && 1 <= num
      modifies this
      ensures Valid() && State() == DoAll(sc, old(State()), num, BlockSteps(block))
    {
      hide Valid, Do, State;
      DoNothing(sc, State(), num);
      if block.Some? {
        OneStepOnly(sc, State(), num, Add(BLOCK_INFO, true, block.value));
        AddRow(BLOCK_INFO, num, true, block.value);
      }
    }

    /** The rows of one delta, as receive_deltas adds them. */
    method ReceiveRows(num: u32, d: TableDelta)
      requires Valid() && State().alive && 1 <= num
      modifies this
      ensures Valid() && State() == DoAll(sc, old(State()), num, RowSteps(d, |d.rows|))
    {
      hide Valid, Do, State, RowSteps;
      NoRows(sc, State(), num, d);
      var i := 0;
      while i < |d.rows|
        invariant i <= |d.rows| && Valid() && State().alive && State() == DoAll(sc, old(State()), num, RowSteps(d, i))
      {
        NextRow(sc, old(State()), num, d, i);
        if |d.rows| > 10000 && i % 10000 == 0 {
          EndWrite(false);
        }
        AddRow(d.name, num, d.rows[i].0, d.rows[i].1);
        i := i + 1;
        if !IsAlive() {
          DeadRows(sc, old(State()), num, d, i, |d.rows|);
          return;
        }
      }
    }

    method ReceiveDeltas(num: u32, ds: seq<TableDelta>)
      requires Valid() && State().alive && 1 <= num
      modifies this
      ensures Valid() && State() == DoAll(sc, old(State()), num, DeltaSteps(ds))
    {
      hide Valid, Do, State, RowSteps;
      DoNothing(sc, State(), num);
      var i := 0;
      while i < |ds|
        invariant i <= |ds| && Valid() && State().alive && State() == DoAll(sc, old(State()), num, DeltaSteps(ds[..i]))
      {
        NextDelta(sc, old(State()), num, ds, i);
        ReceiveRows(num, ds[i]);
        i := i + 1;
        if !IsAlive() {
          DeadDeltas(sc, old(State()), num, ds, i);
          return;
        }
      }
      assert ds[..i] == ds;
    }

    method ReceiveTraces(num: u32, traces: seq<Bytes>)
      requires Valid() && State().alive && 1 <= num
      modifies this
      ensures Valid() && State() == DoAll(sc, old(State()), num, TraceSteps(traces))
    {
      hide Valid, Do, State;
      DoNothing(sc, State(), num);
      var i := 0;
      while i < |traces|
        invariant i <= |traces| && Valid() && State().alive &&
                State() == DoAll(sc, old(State()), num, TraceSteps(traces[..i]))
      {
        NextTrace(sc, old(State()), num, traces, i);
        AddRow(ACTION_TRACE, num, true, traces[i]);
        i := i + 1;
        if !IsAlive() {
          DeadTraces(sc, old(State()), num, traces, i);
          return;
        }
      }
      assert traces[..i] == traces;
    }

    /** get<received_block>. */
    method GetReceived(block: u32) returns (r: Option<Id>)
      requires Valid()
      ensures r == ReceivedId(ImageOf(db).rows, block)
    {
      hide *;
      ReceivedLookup(db, block);
      if ReceivedKey(block) in db && 36 <= |db[ReceivedKey(block)]| {
        r := Some(db[ReceivedKey(block)][4..36]);
      } else {
        r := None;
      }
    }

    /** Erase the entries, then the rows. */
    method WriteErasure(index: seq<Op>, content: seq<Op>, ghost gone: set<Bytes>)
      requires Valid() && Deletes(index) && Deletes(content) && Erased(content) == gone && gone <= ImageOf(db).rows.Keys
      requires Erased(index) == EntrySet(sc, Restrict(ImageOf(db).rows, gone))
      modifies this`db, this`log
      ensures Valid()
      ensures var im := old(ImageOf(db)); var a := im.(entries := im.entries - EntrySet(sc, Restrict(im.rows, gone)));
        log == old(log) + [a, a.(rows := im.rows - gone)]
    {
      hide ImageOf, Shaped, EntryPuts, GoodRows, Added, Puts, EntrySet, Restrict, Erased, Apply, Deletes;
      ErasedImages(sc, db, index, content, gone);
      Write(index);
      Write(content);
    }

    method Truncate(block: u32)
      requires Valid() && 1 <= block
      modifies this`db, this`log, this`head, this`headId, this`first
      ensures Valid() && State() == History.Truncate(sc, old(State()), block)
    {
      hide Shaped, EntryPuts, GoodRows, Added, Puts, EntrySet, Restrict, From, ReceivedId, TableFrom, Erased, SetOf,
           ImageOf, Deletes;
      var ks := ForEach(db, TableFrom(block), [TABLE]);
      RowsInScan(sc, db, block, ks);
      var content, index := RemoveRows(sc, db, ks);
      var rb := GetReceived(block - 1);
      if rb.None? {
        head, headId := 0, ZERO;
      } else {
        head, headId := block - 1, rb.value;
      }
      first := if first < head then first else head;
      WriteErasure(index, content, From(ImageOf(db).rows, block));
    }

    method LoadFillStatus()
      requires Valid()
      modifies this`head, this`headId, this`irreversible, this`irreversibleId, this`first
      ensures Valid()
      ensures State() ==
        old(State()).(st := if ImageOf(db).status.Some? then ImageOf(db).status.value else old(State()).st)
    {
      hide GoodRows, Added, Puts, EntryPuts, ReadStatus, ImageOf, Shaped, STATUS_KEY;
      StoredStatus(db);
      if STATUS_KEY in db {
        var f := ReadStatus(db[STATUS_KEY]);
        head, headId, irreversible, irreversibleId, first :=
          f.head, f.headId, f.irreversible, f.irreversibleId, f.first;
      }
    }

    /** received_abi: what every session does first. */
    method ReceivedAbi()
      requires Valid() && State() == Session([ImageOf(db)], map[], {}, EMPTY, true)
      requires StatusOf(ImageOf(db)).head < 0xffff_ffff
      modifies this
      ensures Valid() && State() == Open(sc, old(ImageOf(db)))
    {
      hide Valid, ImageOf, History.EndWrite, History.Truncate;
      LoadFillStatus();
      WriteKeepsHead(State());
      EndWrite(true);
      Truncate(head + 1);
      EndWrite(true);
    }

    /** get_positions: the blocks a restart can agree on with the node; None when one of them is missing. */
    method GetPositions() returns (r: Option<seq<Position>>)
      requires Valid()
      ensures head == 0 ==> r == Some([])
      ensures head != 0 ==>
        (r.None? <==> exists b: u32 :: irreversible <= b <= head && ReceivedId(ImageOf(db).rows, b).None?)
      ensures head != 0 && r.Some? ==> |r.value| == (if irreversible <= head then head - irreversible + 1 else 0)
      ensures head != 0 && r.Some? ==> forall i :: 0 <= i < |r.value| ==>
                r.value[i].num == irreversible + i
                  && ReceivedId(ImageOf(db).rows, r.value[i].num) == Some(r.value[i].id)
    {
      hide Valid, ImageOf, ReceivedId;
      var result: seq<Position> := [];
      if head != 0 {
        var i: nat := irreversible;
        while i <= head
          invariant irreversible <= i && |result| == i - irreversible && (irreversible <= head ==> i <= head + 1)
          invariant irreversible > head ==> i == irreversible
          invariant forall j :: 0 <= j < |result| ==>
                      result[j].num == irreversible + j
                        && ReceivedId(ImageOf(db).rows, result[j].num) == Some(result[j].id)
          invariant forall b: u32 :: irreversible <= b < i ==> ReceivedId(ImageOf(db).rows, b).Some?
        {
          var rb := GetReceived(i);
          if rb.None? {
            return None;
          }
          result := result + [Position(i, rb.value)];
          i := i + 1;
        }
      }
      r := Some(result);
    }

    method Trim()
      requires Valid() && 1 <= first && head < 0xffff_ffff && ImageOf(db).entries == EntrySet(sc, ImageOf(db).rows)
      modifies this`db, this`log, this`first
      ensures Valid() && State() == History.Trim(sc, old(State()))
    {
      hide ImageOf, Shaped, EntryPuts, GoodRows, Added, Puts, EntrySet, Restrict, Removes, Trimmed, Clamp, Apply,
           StatusBytes, STATUS_KEY;
      var end := if head < irreversible then head else irreversible;
      if first >= end {
        return;
      }
      var batch := FillTrimBatch(sc, db, first, end);
      ghost var gone := Trimmed(sc, ImageOf(db).rows, first, end);
      first := end;
      TrimImage(sc, db, batch, gone, Clamp(State().st));
      batch := WriteFillStatus(batch);
      Write(batch);
    }

    /** A block that is not after the head: end what is open, and go back to before the block. */
    method SwitchTo(num: u32)
      requires Valid() && 1 <= num
      modifies this
      ensures Valid() && State() == SwitchForks(sc, old(State()), num)
    {
      hide Valid, History.EndWrite, History.Truncate, Added;
      if num <= head {
        EndWrite(true);
        Truncate(num);
        EndWrite(true);
      }
    }

    /** All rows of a block. */
    method ReceiveRowsOf(m: Message)
      requires Valid() && State().alive && 1 <= m.pos.num
      modifies this
      ensures Valid() && State() == DoAll(sc, old(State()), m.pos.num, ResultOf(m).steps)
    {
      hide Valid, Do, State, DoAll, BlockSteps, DeltaSteps, TraceSteps;
      StepsInParts(sc, State(), m);
      ReceiveBlock(m.pos.num, m.block);
      if IsAlive() {
        ReceiveDeltas(m.pos.num, m.deltas);
        if IsAlive() {
          ReceiveTraces(m.pos.num, m.traces);
        }
      }
    }

    method AdvanceTo(m: Message)
      requires Valid() && 1 <= m.pos.num
      modifies this`head, this`headId, this`irreversible, this`irreversibleId, this`first, this`activeContent
      ensures Valid() && State() == Advance(old(State()), ResultOf(m))
    {
      hide ImageOf, Shaped, EntryPuts, GoodRows, Added, Puts, ReceivedKey, ReceivedValue;
      ReceivedAdded(sc, activeContent, m.pos);
      head, headId := m.pos.num, m.pos.id;
      irreversible, irreversibleId := m.irreversible.num, m.irreversible.id;
      if first == 0 {
        first := head;
      }
      activeContent := activeContent + [Put(ReceivedKey(m.pos.num), ReceivedValue(m.pos.num, m.pos.id))];
    }

    method LinksTo(m: Message) returns (r: bool)
      requires Valid()
      ensures r == Links(State(), ResultOf(m))
    {
      hide Valid;
      r := headId == ZERO || (m.prev.Some? && m.prev.value.id == headId);
    }

    /** Write everything out, and trim if that is wanted. */
    method CommitBlock(ghost tree: Tree, ghost r: BlockResult)
      requires Valid() && Live(tree, sc, State()) && State().st.head == r.pos.num && 1 <= r.pos.num
      modifies this
      ensures Valid() && State() == Commit(sc, settings, old(State()))
    {
      hide Valid, State, Live, History.EndWrite, History.Trim, EntrySet, ImageOf;
      ReadyToTrim(tree, sc, State(), r);
      EndWrite(true);
      if settings.trim {
        LogEndsHere();
        Trim();
      }
    }

    /** The block itself, once forks have been switched. */
    method ProcessBlock(ghost tree: Tree, m: Message)
      requires Valid() && Live(tree, sc, State()) && AllBelow(State(), m.pos.num) &&
               Allowed(tree, sc, State(), ResultOf(m))
      requires State().alive && 1 <= m.pos.num
      modifies this
      ensures Valid() && State() == Process(sc, settings, old(State()), ResultOf(m))
    {
      hide Valid, State, Live, Allowed, AllBelow, DoAll, Commit, Links, ResultOf;
      ghost var r := ResultOf(m);
      SameNum(m);
      var links := LinksTo(m);
      if !links {
        Fail();
        return;
      }
      ProcessKeeps(tree, sc, settings, State(), r);
      ReceiveRowsOf(m);
      if IsAlive() {
        AdvanceTo(m);
        if m.pos.num % 200 == 0 || (m.pos.num + 4) % 0x1_0000_0000 >= m.irreversible.num {
          CommitBlock(tree, r);
        }
      }
    }

    /** received: one message from the node; false closes the session. What the session then has is said in terms of the
        message alone: it goes on exactly if the block is not the one to stop before, connects to the block before it
        and has only rows that can be stored; then it has these rows and no others besides those that stay. */
    method Received(ghost tree: Tree, m: Message) returns (more: bool, ghost all: Db)
      requires Valid() && Live(tree, sc, State()) && Allowed(tree, sc, State(), ResultOf(m))
      modifies this
      ensures Valid() && State() == History.Received(sc, settings, old(State()), ResultOf(m))
      ensures more == State().alive && (more ==> Live(tree, sc, State())) && 1 <= m.pos.num
      ensures more <==> !StopsBefore(settings, m) && Connects(old(State()), m) && AllCanBeStored(sc, m)
      ensures more ==> HasRows(sc, old(State()), m, all) && StandsAt(sc, settings, old(State()), m, all, State())
      ensures StopsBefore(settings, m) ==> WrittenOut(old(State()), State())
    {
      hide Valid, State, Live, Allowed, SwitchForks, History.EndWrite, Process, ResultOf, AllBelow, HasRows, StandsAt,
           Connects, AllCanBeStored, WrittenOut, Brings;
      ghost var r := ResultOf(m);
      SameNum(m);
      LiveAlive(tree, sc, State());
      AllowedNum(tree, sc, State(), r);
      BlockKeeps(tree, sc, settings, State(), r);
      all := ReceivedExactly(tree, sc, settings, State(), m);
      if settings.stopBefore != 0 && m.pos.num >= settings.stopBefore {
        EndWrite(true);
        Fail();
        more := false;
        return;
      }
      SwitchKeepsAllowed(tree, sc, State(), r);
      SwitchTo(m.pos.num);
      ProcessBlock(tree, m);
      more := IsAlive();
    }

    lemma LogEndsHere()
      requires Valid()
      ensures Now(State()) == ImageOf(db) && State().st.first == first && State().st.head == head
    {
    }
  }

  lemma WriteKeepsHead(s: Session)
    ensures History.EndWrite(s, true).st == s.st && Now(History.EndWrite(s, true)).status == Some(Clamp(s.st))
  {
  }

  lemma StepsInParts(sc: Config, s: Session, m: Message)
    ensures var s1 := DoAll(sc, s, m.pos.num, BlockSteps(m.block));
      var s2 := DoAll(sc, s1, m.pos.num, DeltaSteps(m.deltas));
      var s3 := DoAll(sc, s2, m.pos.num, TraceSteps(m.traces));
      && DoAll(sc, s, m.pos.num, ResultOf(m).steps) == s3
      && (!s1.alive ==> s3 == s1) && (!s2.alive ==> s3 == s2)
  {
    hide DoAll, BlockSteps, DeltaSteps, TraceSteps;
    DoAllConcat(sc, s, m.pos.num, BlockSteps(m.block) + DeltaSteps(m.deltas), TraceSteps(m.traces));
    DoAllConcat(sc, s, m.pos.num, BlockSteps(m.block), DeltaSteps(m.deltas));
    var s1 := DoAll(sc, s, m.pos.num, BlockSteps(m.block));
    var s2 := DoAll(sc, s1, m.pos.num, DeltaSteps(m.deltas));
    if !s1.alive { DeadDoesNothing(sc, s1, m.pos.num, DeltaSteps(m.deltas)); }
    if !s2.alive { DeadDoesNothing(sc, s2, m.pos.num, TraceSteps(m.traces)); }
  }

  lemma ReceivedAdded(sc: Config, content: seq<Op>, pos: Position)
    requires Puts(content) && GoodRows(sc, Added(content)) && 1 <= pos.num
    ensures var batch := content + [Put(ReceivedKey(pos.num), ReceivedValue(pos.num, pos.id))];
      && Puts(batch) && GoodRows(sc, Added(batch))
      && Added(batch) == Added(content)[ReceivedKey(pos.num) := ReceivedValue(pos.num, pos.id)]
  {
    hide RowKey, RowEntries, IsRow, EntriesOf, BlockOf, Apply, ReceivedKey, ReceivedValue;
    ReceivedRow(sc, pos.num, pos.id);
    AddedRow(sc, pos.num, RECEIVED, true, ReceivedValue(pos.num, pos.id));
    ApplySnoc(map[], content, Put(ReceivedKey(pos.num), ReceivedValue(pos.num, pos.id)));
  }

  lemma AllowedNum(tree: Tree, sc: Config, s: Session, r: BlockResult)
    requires Allowed(tree, sc, s, r)
    ensures 1 <= r.pos.num
  {
  }

  lemma SwitchKeepsAllowed(tree: Tree, sc: Config, s: Session, r: BlockResult)
    requires Live(tree, sc, s) && Allowed(tree, sc, s, r)
    ensures var s1 := SwitchForks(sc, s, r.pos.num);
      Live(tree, sc, s1) && AllBelow(s1, r.pos.num) && Allowed(tree, sc, s1, r) && s1.alive
  {
    hide AllBelow, Faithful, Once, Sane, Chain, Above, Durable, SwitchForks;
    FaithfulNum(tree, r);
    SwitchKeeps(tree, sc, s, r.pos.num);
    AllowedAfterSwitch(tree, sc, s, SwitchForks(sc, s, r.pos.num), r);
  }

  /** With the batches written the index is clean, so that trim can rely on it. */
  lemma ReadyToTrim(tree: Tree, sc: Config, s: Session, r: BlockResult)
    requires Live(tree, sc, s) && s.st.head == r.pos.num && 1 <= r.pos.num
    ensures var e := History.EndWrite(s, true);
      Now(e).entries == EntrySet(sc, Now(e).rows) && 1 <= e.st.first && e.st.head < 0xffff_ffff
  {
    hide Above, Durable, EntrySet, IsRow, ReceivedKey, ReceivedId;
    LiveAtBlock(tree, sc, s);
    EndWriteSettles(sc, s);
  }

  lemma SameNum(m: Message)
    ensures ResultOf(m).pos == m.pos && ResultOf(m).irreversible == m.irreversible
  {
  }

  lemma StoredStatus(db: Db)
    requires Shaped(db)
    ensures STATUS_KEY in db ==> |db[STATUS_KEY]| == 76
    ensures ImageOf(db).status == if STATUS_KEY in db then Some(ReadStatus(db[STATUS_KEY])) else None
  {
    hide ReadStatus, STATUS_KEY;
  }
}
