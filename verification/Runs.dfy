/** Every run of the filler: what each block keeps, and what a stop at any batch can lose. */
module Runs {
  import opened Bytes
  import opened Store
  import opened KeyCodec
  import opened Tables
  import opened Trimming
  import opened History
  import opened Recovery

  /** All rows of a session: written and still in the batch. */
  ghost function All(s: Session): Db
  {
    Now(s).rows + s.content
  }

  /** The database is clean, and the batches hold new rows of blocks after the stored head with all their entries. */
  ghost predicate Sane(sc: Config, s: Session)
  {
    && Now(s).status.Some? && Recoverable(sc, Now(s)) && Now(s).entries == EntrySet(sc, Now(s).rows)
    && GoodRows(sc, s.content) && s.content.Keys !! Now(s).rows.Keys && s.index == EntrySet(sc, s.content)
    && (forall k :: k in s.content ==> StatusOf(Now(s)).head < BlockOf(k))
  }

  /** r continues s with images that a restart takes back to where a restart would have taken s. */
  ghost predicate Grows(sc: Config, s: Session, r: Session)
  {
    && |s.log| <= |r.log| && r.log[..|s.log|] == s.log
    && forall i :: |s.log| <= i < |r.log| ==> SameIdeal(sc, Now(s), r.log[i])
  }

  lemma GrowsTransitive(sc: Config, s: Session, r: Session, t: Session)
    requires Grows(sc, s, r) && Grows(sc, r, t)
    ensures Grows(sc, s, t)
  {
    hide SameIdeal;
    SameIdealNow(sc, s, r);
    forall i | |s.log| <= i < |t.log| ensures SameIdeal(sc, Now(s), t.log[i]) {
      if i < |r.log| {
        assert t.log[i] == t.log[..|r.log|][i];
      } else {
        SameIdealTransitive(sc, Now(s), Now(r), t.log[i]);
      }
    }
    assert t.log[..|s.log|] == t.log[..|r.log|][..|s.log|];
  }

  lemma SameIdealNow(sc: Config, s: Session, r: Session)
    requires Grows(sc, s, r)
    ensures Ideal(sc, Now(r)) == Ideal(sc, Now(s))
  {
  }

  lemma SameIdealTransitive(sc: Config, a: Image, b: Image, c: Image)
    requires Ideal(sc, b) == Ideal(sc, a) && SameIdeal(sc, b, c)
    ensures SameIdeal(sc, a, c)
  {
  }

  // ---------- writing ----------

  /** The new rows are in, their entries not yet. */
  lemma ContentWritten(sc: Config, s: Session)
    requires Sane(sc, s)
    ensures SameIdeal(sc, Now(s), Now(s).(rows := All(s)))
    ensures GoodRows(sc, All(s)) && EntrySet(sc, All(s)) == Now(s).entries + s.index
  {
    hide EntrySet, IsRow, BlockOf, ReceivedId, RowPrefix;
    var im := Now(s);
    var a := im.(rows := All(s));
    EntriesUnion(sc, im.rows, s.content);
    assert Kept(a) == Kept(im);
    assert ReceivedId(a.rows, StatusOf(im).head) == ReceivedId(im.rows, StatusOf(im).head) by {
      KeptReceived(a);
      KeptReceived(im);
    }
    IdealUnchanged(sc, im, a);
  }

  lemma FlushWrites(sc: Config, s: Session)
    requires Sane(sc, s)
    ensures Sane(sc, EndWrite(s, false)) && Grows(sc, s, EndWrite(s, false)) && All(EndWrite(s, false)) == All(s)
  {
    hide EntrySet, IsRow, BlockOf, ReceivedId, RowPrefix;
    ContentWritten(sc, s);
    var im := Now(s);
    var a := im.(rows := All(s));
    var b := a.(entries := a.entries + s.index);
    assert Kept(b) == Kept(a) == Kept(im);
    EntriesMonotone(sc, Kept(im), im.rows);
    IdealUnchanged(sc, im, b);
    NoEntries(sc);
    assert All(s) + map[] == All(s);
  }

  lemma NoEntries(sc: Config)
    ensures EntrySet(sc, map[]) == {}
  {
  }

  /** The session stands at a block: no row is beyond its head, and its status would be right for its rows. */
  ghost predicate AtBlock(s: Session)
  {
    && (forall k :: k in All(s) ==> 14 <= |k| && BlockOf(k) <= s.st.head)
    && StatusOk(Clamp(s.st), All(s))
  }

  /** Rows with all their entries and nothing beyond the head: the status just written holds of them. */
  lemma CleanIsSettled(sc: Config, im: Image)
    requires GoodRows(sc, im.rows) && im.entries == EntrySet(sc, im.rows) && im.status.Some?
    requires forall k :: k in im.rows ==> 14 <= |k| && BlockOf(k) <= im.status.value.head
    requires StatusOk(im.status.value, im.rows)
    ensures Settled(sc, im)
  {
    hide EntrySet, IsRow, BlockOf, ReceivedId;
    assert Kept(im) == im.rows;
  }

  /** end_write with the status: until its second batch a restart goes back as before, then to here. */
  lemma EndWriteSettles(sc: Config, s: Session)
    requires Sane(sc, s) && AtBlock(s)
    ensures var r := EndWrite(s, true);
      && r == s.(log := s.log + [Now(s).(rows := All(s)), Image(All(s), EntrySet(sc, All(s)), Some(Clamp(s.st)))],
                 content := map[], index := {})
      && SameIdeal(sc, Now(s), Now(s).(rows := All(s))) && Settled(sc, Now(r))
      && Sane(sc, r) && All(r) == All(s) && AtBlock(r)
  {
    hide EntrySet, IsRow, BlockOf, ReceivedId, RowPrefix;
    ContentWritten(sc, s);
    var r := EndWrite(s, true);
    CleanIsSettled(sc, Now(r));
    NoEntries(sc);
    assert All(s) + map[] == All(s);
  }

  // ---------- the rows of a block ----------

  function StepKey(sc: Schema, num: u32, step: Step): Option<Bytes>
  {
    match step
    case Flush => None
    case Add(name, present, v) => RowKey(sc, num, name, present, v)
  }

  /** A block has each row once, and none in the place of its received_block row. */
  predicate Once(sc: Schema, num: u32, steps: seq<Step>)
  {
    && (forall i :: 0 <= i < |steps| ==> StepKey(sc, num, steps[i]) != Some(ReceivedKey(num)))
    && forall i, j :: 0 <= i < j < |steps| && StepKey(sc, num, steps[i]).Some? ==>
         StepKey(sc, num, steps[i]) != StepKey(sc, num, steps[j])
  }

  /** r has the rows of s and rows that the steps made. */
  ghost predicate Extends(sc: Schema, s: Session, r: Session, num: u32, steps: seq<Step>)
  {
    && r.st == s.st
    && (forall k :: k in All(s) ==> k in All(r) && All(r)[k] == All(s)[k])
    && forall k :: k in All(r) && k !in All(s) ==>
         exists i :: 0 <= i < |steps| && StepKey(sc, num, steps[i]) == Some(k)
  }

  ghost predicate AllBelow(s: Session, num: u32)
  {
    StatusOf(Now(s)).head < num && forall k :: k in All(s) ==> 14 <= |k| && BlockOf(k) < num
  }

  lemma BlockOfStep(sc: Schema, num: u32, step: Step)
    requires StepKey(sc, num, step).Some?
    ensures 14 <= |StepKey(sc, num, step).value| && BlockOf(StepKey(sc, num, step).value) == num
  {
    hide RowPrefix, BlockOf, Extract, Fill;
    var t := sc[step.name];
    var key := Extract(t.fields, t.keys, step.value, Fields(t, step.value).value.pos).value;
    ReadRowPrefix(num, step.name, step.present, key);
  }

  /** A new row goes into the batches with its entries. */
  lemma AddKeeps(sc: Config, s: Session, num: u32, step: Step)
    requires Sane(sc, s) && s.alive && step.Add? && StatusOf(Now(s)).head < num
    requires StepKey(sc, num, step).Some? ==> StepKey(sc, num, step).value !in All(s)
    ensures var r := Do(sc, s, num, step);
      && Grows(sc, s, r) && r.log == s.log && r.st == s.st
      && (r.alive ==>
        Sane(sc, r) && StepKey(sc, num, step).Some? && All(r) == All(s)[StepKey(sc, num, step).value := step.value])
  {
    hide EntrySet, IsRow, BlockOf, ReceivedId, RowPrefix, RowKey, RowEntries, Recoverable, EntriesOf;
    var r := Do(sc, s, num, step);
    if r.alive {
      var k := StepKey(sc, num, step).value;
      AddedRow(sc, num, step.name, step.present, step.value);
      var one: Db := map[k := step.value];
      EntriesUnion(sc, s.content, one);
      assert s.content + one == r.content;
      EntriesOfOne(sc, k, step.value);
    }
  }

  lemma EntriesOfOne(sc: Config, k: Bytes, v: Bytes)
    ensures EntrySet(sc, map[k := v]) == set x | x in EntriesOf(sc, k, v)
  {
    hide EntriesOf;
    assert k in map[k := v];
  }

  lemma {:induction false} StepsKeep(sc: Config, s: Session, num: u32, steps: seq<Step>)
    requires Sane(sc, s) && s.alive && AllBelow(s, num) && Once(sc, num, steps)
    ensures var r := DoAll(sc, s, num, steps);
      && Grows(sc, s, r) && r.st == s.st
      && (r.alive ==> Sane(sc, r) && StatusOf(Now(r)) == StatusOf(Now(s)) && Extends(sc, s, r, num, steps))
    decreases |steps|
  {
    hide EntrySet, IsRow, BlockOf, RowKey, Recoverable, Ideal, Sane, Grows, EndWrite;
    if steps == [] {
      assert s.log[..|s.log|] == s.log;
      GrowsSelf(sc, s);
    } else {
      var init, step := steps[..|steps| - 1], steps[|steps| - 1];
      OnceInit(sc, num, steps);
      StepsKeep(sc, s, num, init);
      var m := DoAll(sc, s, num, init);
      if m.alive {
        var r := Do(sc, m, num, step);
        OneStep(sc, s, m, num, steps);
        GrowsTransitive(sc, s, m, r);
      }
    }
  }

  lemma GrowsSelf(sc: Config, s: Session)
    requires Sane(sc, s)
    ensures Grows(sc, s, s)
  {
    assert s.log[..|s.log|] == s.log;
  }

  lemma OnceInit(sc: Schema, num: u32, steps: seq<Step>)
    requires Once(sc, num, steps) && steps != []
    ensures Once(sc, num, steps[..|steps| - 1])
  {
    hide RowKey, ReceivedKey, StepKey;
    var init := steps[..|steps| - 1];
    forall i, j | 0 <= i < j < |init| && StepKey(sc, num, init[i]).Some?
      ensures StepKey(sc, num, init[i]) != StepKey(sc, num, init[j])
    {
      assert init[i] == steps[i] && init[j] == steps[j];
    }
    forall i | 0 <= i < |init| ensures StepKey(sc, num, init[i]) != Some(ReceivedKey(num)) {
      assert init[i] == steps[i];
    }
  }

  lemma OneStep(sc: Config, s: Session, m: Session, num: u32, steps: seq<Step>)
    requires steps != [] && Once(sc, num, steps) && AllBelow(s, num)
    requires Sane(sc, m) && m.alive && StatusOf(Now(m)) == StatusOf(Now(s)) &&
             Extends(sc, s, m, num, steps[..|steps| - 1])
    ensures var r := Do(sc, m, num, steps[|steps| - 1]);
      && Grows(sc, m, r) && r.st == m.st
      && (r.alive ==> Sane(sc, r) && StatusOf(Now(r)) == StatusOf(Now(s)) && Extends(sc, s, r, num, steps))
  {
    hide *;
    if steps[|steps| - 1].Flush? {
      FlushStep(sc, s, m, num, steps);
    } else {
      AddStep(sc, s, m, num, steps);
    }
  }

  lemma FlushStep(sc: Config, s: Session, m: Session, num: u32, steps: seq<Step>)
    requires steps != [] && steps[|steps| - 1].Flush?
    requires Sane(sc, m) && m.alive && StatusOf(Now(m)) == StatusOf(Now(s)) &&
             Extends(sc, s, m, num, steps[..|steps| - 1])
    ensures var r := Do(sc, m, num, steps[|steps| - 1]);
      && Grows(sc, m, r) && r.st == m.st
      && Sane(sc, r) && StatusOf(Now(r)) == StatusOf(Now(s)) && Extends(sc, s, r, num, steps)
  {
    hide Sane, Grows, All, Extends, StatusOf;
    FlushWrites(sc, m);
    FlushKeepsStatus(m);
    ExtendsMore(sc, s, m, EndWrite(m, false), num, steps);
  }

  lemma AddStep(sc: Config, s: Session, m: Session, num: u32, steps: seq<Step>)
    requires steps != [] && Once(sc, num, steps) && AllBelow(s, num) && steps[|steps| - 1].Add?
    requires Sane(sc, m) && m.alive && StatusOf(Now(m)) == StatusOf(Now(s)) &&
             Extends(sc, s, m, num, steps[..|steps| - 1])
    ensures var r := Do(sc, m, num, steps[|steps| - 1]);
      && Grows(sc, m, r) && r.st == m.st
      && (r.alive ==> Sane(sc, r) && StatusOf(Now(r)) == StatusOf(Now(s)) && Extends(sc, s, r, num, steps))
  {
    hide Sane, Grows, All, Extends, StatusOf, StepKey, Once, Do;
    var step := steps[|steps| - 1];
    FreshKey(sc, s, m, num, steps);
    BelowNum(s, num);
    AddKeeps(sc, m, num, step);
    var r := Do(sc, m, num, step);
    if r.alive {
      assert AddsOne(m, r, StepKey(sc, num, step).value);
      ExtendsMore(sc, s, m, r, num, steps);
    }
  }

  lemma BelowNum(s: Session, num: u32)
    requires AllBelow(s, num)
    ensures StatusOf(Now(s)).head < num
  {
  }

  lemma FreshKey(sc: Config, s: Session, m: Session, num: u32, steps: seq<Step>)
    requires steps != [] && Once(sc, num, steps) && AllBelow(s, num) && Extends(sc, s, m, num, steps[..|steps| - 1])
    ensures var key := StepKey(sc, num, steps[|steps| - 1]); key.Some? ==> key.value !in All(m)
  {
    hide BlockOf, RowKey, StepKey;
    var init, step := steps[..|steps| - 1], steps[|steps| - 1];
    if StepKey(sc, num, step).Some? {
      BlockOfStep(sc, num, step);
      forall i | 0 <= i < |init| ensures StepKey(sc, num, init[i]) != StepKey(sc, num, step) {
        assert init[i] == steps[i];
      }
    }
  }

  lemma FlushKeepsStatus(s: Session)
    ensures StatusOf(Now(EndWrite(s, false))) == StatusOf(Now(s)) && EndWrite(s, false).st == s.st
  {
  }

  ghost predicate AddsOne(m: Session, r: Session, k: Bytes)
  {
    k !in All(m) && k in All(r) && All(r) == All(m)[k := All(r)[k]]
  }

  lemma ExtendsMore(sc: Schema, s: Session, m: Session, r: Session, num: u32, steps: seq<Step>)
    requires steps != [] && Extends(sc, s, m, num, steps[..|steps| - 1]) && r.st == m.st
    requires All(r) == All(m)
          || exists k :: StepKey(sc, num, steps[|steps| - 1]) == Some(k) && AddsOne(m, r, k)
    ensures Extends(sc, s, r, num, steps)
  {
    hide StepKey;
    var init := steps[..|steps| - 1];
    forall k | k in All(r) && k !in All(s)
      ensures exists i :: 0 <= i < |steps| && StepKey(sc, num, steps[i]) == Some(k)
    {
      if k in All(m) {
        var i :| 0 <= i < |init| && StepKey(sc, num, init[i]) == Some(k);
        assert steps[i] == init[i];
      } else {
        assert StepKey(sc, num, steps[|steps| - 1]) == Some(k);
      }
    }
  }

  // ---------- the chain of received blocks ----------

  /** A block's id says its number and its predecessor. */
  datatype Tree = Tree(parent: Id -> Id, number: Id -> nat)

  ghost predicate LinkAt(tree: Tree, rows: Db, first: u32, block: u32)
  {
    var id := ReceivedId(rows, block);
    && id.Some? && id.value != ZERO && tree.number(id.value) == block
    && (first < block ==> ReceivedId(rows, Before(block)) == Some(tree.parent(id.value)))
  }

  /** There are received_block rows exactly for first to head, each the parent of the next, up to the head. */
  ghost predicate Chain(tree: Tree, rows: Db, st: Status)
  {
    if st.head == 0 then st.headId == ZERO && st.first == 0 && forall b: u32 :: ReceivedKey(b) !in rows
    else
      && 1 <= st.first <= st.head < 0xffff_ffff && ReceivedId(rows, st.head) == Some(st.headId)
      && (forall b: u32 :: ReceivedKey(b) in rows <==> st.first <= b <= st.head)
      && (forall b: u32 :: st.first <= b <= st.head ==> LinkAt(tree, rows, st.first, b))
  }

  ghost predicate UpTo(rows: Db, block: u32)
  {
    forall k :: k in rows ==> 14 <= |k| && BlockOf(k) <= block
  }

  /** Rows before the first block are left only by trims, which stay behind the irreversible block. */
  ghost predicate Above(rows: Db, st: Status)
  {
    (forall k :: k in rows ==> 14 <= |k| && st.first <= BlockOf(k)) || st.first <= st.irreversible
  }

  /** What holds between blocks. */
  ghost predicate Live(tree: Tree, sc: Config, s: Session)
  {
    && s.alive && Sane(sc, s) && UpTo(All(s), s.st.head) && Chain(tree, All(s), s.st) && Above(All(s), s.st)
    && Durable(tree, Now(s))
  }

  /** The rows up to the stored head are a chain too, so a restart has one to go on from. */
  ghost predicate Durable(tree: Tree, im: Image)
  {
    Chain(tree, Kept(im), StatusOf(im)) && Above(Kept(im), StatusOf(im))
  }

  lemma ChainClamped(tree: Tree, rows: Db, st: Status)
    requires Chain(tree, rows, st) && Above(rows, st)
    ensures Chain(tree, rows, Clamp(st)) && Above(rows, Clamp(st))
  {
    hide BlockOf, ReceivedKey, ReceivedId;
  }

  lemma SettledDurable(tree: Tree, sc: Config, im: Image, st: Status)
    requires Settled(sc, im) && im.status == Some(Clamp(st)) && Chain(tree, im.rows, st) && Above(im.rows, st)
    ensures Durable(tree, im)
  {
    hide Chain, Above, Clamp, Recoverable, EntrySet;
    ChainClamped(tree, im.rows, st);
  }

  lemma LiveAtBlock(tree: Tree, sc: Config, s: Session)
    requires Live(tree, sc, s)
    ensures AtBlock(s) && StatusOf(Now(s)).head <= s.st.head
  {
    hide IsRow, BlockOf, EntrySet, ReceivedKey;
    BlockOfReceived(StatusOf(Now(s)).head);
    if StatusOf(Now(s)).head > 0 {
      assert ReceivedKey(StatusOf(Now(s)).head) in All(s);
    }
  }

  lemma LiveAfterEndWrite(tree: Tree, sc: Config, s: Session)
    requires Live(tree, sc, s)
    ensures Live(tree, sc, EndWrite(s, true)) && All(EndWrite(s, true)) == All(s) && EndWrite(s, true).st == s.st
  {
    hide IsRow, BlockOf, EntrySet, ReceivedKey, All, Chain, Sane, AtBlock, Settled, Durable, Above;
    LiveAtBlock(tree, sc, s);
    EndWriteSettles(sc, s);
    SettledDurable(tree, sc, Now(EndWrite(s, true)), s.st);
  }

  // ---------- switching forks ----------

  /** The status that truncate computes is right for the rows it leaves. */
  lemma ChainTruncated(tree: Tree, sc: Config, rows: Db, st: Status, st': Status, num: u32)
    requires GoodRows(sc, rows) && Chain(tree, rows, st) && UpTo(rows, st.head) && Above(rows, st)
    requires 1 <= num <= st.head && st.irreversible < num
    requires st' == (var id := ReceivedId(rows, Before(num));
                     var head := if id.Some? then Before(num) else 0;
                     st.(head := head, headId := if id.Some? then id.value else ZERO,
                         first := if st.first < head then st.first else head))
    ensures Chain(tree, rows - From(rows, num), st') && UpTo(rows - From(rows, num), st'.head) && st'.head < num
    ensures Above(rows - From(rows, num), st')
  {
    hide IsRow, BlockOf, ReceivedKey;
    var left := rows - From(rows, num);
    forall b: u32
      ensures ReceivedKey(b) in left <==> ReceivedKey(b) in rows && b < num
      ensures b < num ==> ReceivedId(left, b) == ReceivedId(rows, b)
    {
      BlockOfReceived(b);
    }
    if st.first < num {
      assert LinkAt(tree, rows, st.first, Before(num));
      assert st'.head == num - 1 && st'.first == st.first;
      forall b: u32 | st.first <= b <= st'.head ensures LinkAt(tree, left, st.first, b) {
        assert LinkAt(tree, rows, st.first, b);
      }
    } else {
      assert ReceivedKey(Before(num)) !in rows;
      assert left == map[];
    }
  }

  ghost predicate Sound(sc: Config, im: Image)
  {
    GoodRows(sc, im.rows) && im.entries <= EntrySet(sc, im.rows)
  }

  ghost predicate SoundSince(sc: Config, s: Session, r: Session)
  {
    |s.log| <= |r.log| && r.log[..|s.log|] == s.log && forall i :: |s.log| <= i < |r.log| ==> Sound(sc, r.log[i])
  }

  lemma TruncateCleans(sc: Config, s: Session, num: u32)
    requires GoodRows(sc, Now(s).rows) && Now(s).entries == EntrySet(sc, Now(s).rows)
    ensures var t := Truncate(sc, s, num); var rows := Now(s).rows; var left := rows - From(rows, num);
      && t.log == s.log + [Now(s).(entries := EntrySet(sc, left)), Now(s).(rows := left, entries := EntrySet(sc, left))]
      && t.content == s.content && t.index == s.index && t.alive == s.alive
      && GoodRows(sc, left) && EntrySet(sc, left) <= EntrySet(sc, rows)
  {
    hide IsRow, BlockOf, EntrySet, Restrict, ReceivedId;
    var rows := Now(s).rows;
    EntriesMinus(sc, rows, From(rows, num));
  }

  lemma SoundSinceTransitive(sc: Config, s: Session, r: Session, t: Session)
    requires SoundSince(sc, s, r) && SoundSince(sc, r, t)
    ensures SoundSince(sc, s, t)
  {
    hide Sound;
    forall i | |s.log| <= i < |t.log| ensures Sound(sc, t.log[i]) {
      if i < |r.log| {
        assert t.log[i] == t.log[..|r.log|][i];
      }
    }
    assert t.log[..|s.log|] == t.log[..|r.log|][..|s.log|];
  }

  /** Going back to before block num leaves a session that stands at the block before, or at none. */
  lemma SwitchKeeps(tree: Tree, sc: Config, s: Session, num: u32)
    requires Live(tree, sc, s) && 1 <= num && (num <= s.st.head ==> s.st.irreversible < num)
    ensures var r := SwitchForks(sc, s, num);
      && Live(tree, sc, r) && AllBelow(r, num) && SoundSince(sc, s, r)
      && (num <= s.st.head ==> Settled(sc, Now(r)) && r.log[..|s.log| + 2] == EndWrite(s, true).log)
      && (num > s.st.head ==> r == s)
      && r.st.irreversible == s.st.irreversible
  {
    hide IsRow, BlockOf, EntrySet, ReceivedKey, ReceivedId, Recoverable, Chain, Above, AtBlock, Ideal;
    LiveAtBlock(tree, sc, s);
    if num <= s.st.head {
      ForkKeeps(tree, sc, s, num);
    } else {
      assert s.log[..|s.log|] == s.log;
    }
  }

  lemma ForkKeeps(tree: Tree, sc: Config, s: Session, num: u32)
    requires Live(tree, sc, s) && 1 <= num <= s.st.head && s.st.irreversible < num
    ensures var r := EndWrite(Truncate(sc, EndWrite(s, true), num), true);
      && Live(tree, sc, r) && AllBelow(r, num) && SoundSince(sc, s, r)
      && Settled(sc, Now(r)) && r.log[..|s.log| + 2] == EndWrite(s, true).log
      && r.st.irreversible == s.st.irreversible
  {
    hide IsRow, BlockOf, EntrySet, Chain, Above, AtBlock, Ideal, From, Recoverable, All, Truncate, EndWrite, SoundSince;
    LiveAtBlock(tree, sc, s);
    EndWriteSettles(sc, s);
    LiveAfterEndWrite(tree, sc, s);
    var e := EndWrite(s, true);
    ForkTruncates(tree, sc, e, num);
    var t := Truncate(sc, e, num);
    RewriteStatus(tree, sc, t);
    var r := EndWrite(t, true);
    SaneRows(sc, e);
    RecoverableSound(sc, Now(s).(rows := All(s)));
    RecoverableSound(sc, Now(e));
    RecoverableSound(sc, Now(r));
    SoundPair(sc, s, e);
    SoundPair(sc, e, t);
    SoundPair(sc, t, r);
    SoundSinceTransitive(sc, s, e, t);
    SoundSinceTransitive(sc, s, t, r);
  }

  lemma RecoverableSound(sc: Config, im: Image)
    requires Recoverable(sc, im)
    ensures Sound(sc, im)
  {
  }

  lemma SoundPair(sc: Config, s: Session, r: Session)
    requires |r.log| == |s.log| + 2 && r.log[..|s.log|] == s.log
    requires Sound(sc, r.log[|s.log|]) && Sound(sc, r.log[|s.log| + 1])
    ensures SoundSince(sc, s, r)
  {
    hide Sound;
  }

  lemma SaneRows(sc: Config, s: Session)
    requires Sane(sc, s)
    ensures GoodRows(sc, All(s)) && GoodRows(sc, Now(s).rows)
  {
    hide IsRow;
  }

  lemma ForkTruncates(tree: Tree, sc: Config, e: Session, num: u32)
    requires Live(tree, sc, e) && e.content == map[] && e.index == {}
    requires 1 <= num <= e.st.head && e.st.irreversible < num
    ensures var t := Truncate(sc, e, num); var left := Now(t).rows;
      && t.log == e.log + [Now(e).(entries := EntrySet(sc, left)), Now(t)] && Now(t).entries == EntrySet(sc, left)
      && EntrySet(sc, left) <= EntrySet(sc, Now(e).rows)
      && t.content == map[] && t.index == {} && t.alive && t.st.irreversible == e.st.irreversible && t.st.head < num
      && GoodRows(sc, left) && Chain(tree, left, t.st) && UpTo(left, t.st.head) && Above(left, t.st)
  {
    hide IsRow, BlockOf, EntrySet, ReceivedKey, ReceivedId, Chain, Above, Ideal, From, Recoverable;
    SaneRows(sc, e);
    assert Now(e).rows + map[] == Now(e).rows;
    TruncateCleans(sc, e, num);
    ChainTruncated(tree, sc, Now(e).rows, e.st, Truncate(sc, e, num).st, num);
  }

  lemma RewriteStatus(tree: Tree, sc: Config, t: Session)
    requires t.alive && t.content == map[] && t.index == {}
    requires GoodRows(sc, Now(t).rows) && Now(t).entries == EntrySet(sc, Now(t).rows)
    requires Chain(tree, Now(t).rows, t.st) && UpTo(Now(t).rows, t.st.head) && Above(Now(t).rows, t.st)
    ensures var r := EndWrite(t, true);
      && r.log == t.log + [Now(t), Now(t).(status := Some(Clamp(t.st)))] && r.st == t.st
      && Settled(sc, Now(r)) && Live(tree, sc, r) && All(r) == Now(t).rows
  {
    hide IsRow, BlockOf, EntrySet, ReceivedKey, ReceivedId, Chain, Above, Ideal, Durable, Settled;
    var im := Now(t);
    assert im.rows + map[] == im.rows && im.entries + {} == im.entries;
    ChainStatus(tree, im.rows, t.st);
    CleanIsSettled(sc, im.(status := Some(Clamp(t.st))));
    SettledDurable(tree, sc, im.(status := Some(Clamp(t.st))), t.st);
    SettledRecoverable(sc, im.(status := Some(Clamp(t.st))));
    NoEntries(sc);
  }

  lemma SettledRecoverable(sc: Config, im: Image)
    requires Settled(sc, im)
    ensures Recoverable(sc, im)
  {
  }

  lemma ChainStatus(tree: Tree, rows: Db, st: Status)
    requires Chain(tree, rows, st)
    ensures StatusOk(Clamp(st), rows)
  {
    hide ReceivedKey, ReceivedId;
  }

  // ---------- advancing to a block ----------

  /** Ids say numbers and predecessors as in the tree. */
  ghost predicate Faithful(tree: Tree, r: BlockResult)
  {
    && 1 <= r.pos.num < 0xffff_ffff && r.pos.id != ZERO && tree.number(r.pos.id) == r.pos.num
    && (r.prev.Some? ==> r.prev.value.id == tree.parent(r.pos.id))
    && tree.number(tree.parent(r.pos.id)) + 1 == r.pos.num
  }

  lemma ReceivedRow(sc: Config, block: u32, id: Id)
    ensures RowKey(sc, block, RECEIVED, true, ReceivedValue(block, id)) == Some(ReceivedKey(block))
    ensures RowEntries(sc, block, RECEIVED, true, ReceivedValue(block, id)) == Some([])
    ensures |ReceivedValue(block, id)| == 36 && ReceivedValue(block, id)[4..36] == id
  {
    hide RowPrefix, LittleEndian;
    var v := ReceivedValue(block, id);
    var fields := RECEIVED_BLOCK.fields;
    assert AllIds(2) == [0, 1] && [0, 1][1..] == [1] && [1][1..] == [];
    assert Fill(fields, [0, 1], v, Scan(0, true, map[])) == Fill(fields, [1], v, Scan(4, true, map[0 := 0]));
    assert Fill(fields, [1], v, Scan(4, true, map[0 := 0])) == Fill(fields, [], v, Scan(36, true, map[0 := 0][1 := 4]));
    assert RowPrefix(block, RECEIVED, true) + [] == ReceivedKey(block);
  }

  /** The rows of a block leave the received_block rows of other blocks alone. */
  lemma OthersUntouched(sc: Config, s: Session, m: Session, num: u32, steps: seq<Step>, b: u32)
    requires Extends(sc, s, m, num, steps) && Once(sc, num, steps) && AllBelow(s, num)
    ensures b != num ==>
      ReceivedId(All(m), b) == ReceivedId(All(s), b) && (ReceivedKey(b) in All(m) <==> ReceivedKey(b) in All(s))
    ensures ReceivedKey(num) !in All(m)
  {
    hide BlockOf, ReceivedKey, StepKey, All;
    BlockOfReceived(b);
    BlockOfReceived(num);
    if ReceivedKey(b) in All(m) && ReceivedKey(b) !in All(s) {
      var i :| 0 <= i < |steps| && StepKey(sc, num, steps[i]) == Some(ReceivedKey(b));
      BlockOfStep(sc, num, steps[i]);
    }
  }

  lemma AdvanceSane(sc: Config, m: Session, r: BlockResult)
    requires Sane(sc, m) && StatusOf(Now(m)).head < r.pos.num && ReceivedKey(r.pos.num) !in All(m)
    ensures Sane(sc, Advance(m, r))
    ensures All(Advance(m, r)) == All(m)[ReceivedKey(r.pos.num) := ReceivedValue(r.pos.num, r.pos.id)]
  {
    hide IsRow, BlockOf, EntrySet, ReceivedKey, ReceivedValue, RowKey, RowEntries, Recoverable, EntriesOf;
    var k, v := ReceivedKey(r.pos.num), ReceivedValue(r.pos.num, r.pos.id);
    ReceivedRow(sc, r.pos.num, r.pos.id);
    AddedRow(sc, r.pos.num, RECEIVED, true, v);
    EntriesUnion(sc, m.content, map[k := v]);
    assert m.content + map[k := v] == Advance(m, r).content;
    EntriesOfOne(sc, k, v);
  }

  lemma NumberFollows(tree: Tree, sc: Config, s: Session, r: BlockResult)
    requires Live(tree, sc, s) && Links(s, r) && Faithful(tree, r) && s.st.head != 0
    ensures r.pos.num == s.st.head + 1 && s.st.headId == tree.parent(r.pos.id)
  {
    hide Sane, UpTo, Above, ReceivedKey, ReceivedId;
    assert LinkAt(tree, All(s), s.st.first, s.st.head);
  }

  /** The same received_block rows but for block num. */
  ghost predicate SameReceived(rows: Db, rows': Db, num: u32)
  {
    forall b: u32 :: b != num ==>
      ReceivedId(rows', b) == ReceivedId(rows, b) && (ReceivedKey(b) in rows' <==> ReceivedKey(b) in rows)
  }

  lemma ChainGrows(tree: Tree, rows: Db, rows': Db, st: Status, st': Status)
    requires Chain(tree, rows, st) && st.head < st'.head < 0xffff_ffff && SameReceived(rows, rows', st'.head)
    requires ReceivedKey(st'.head) in rows' && ReceivedId(rows', st'.head) == Some(st'.headId)
    requires st'.headId != ZERO && tree.number(st'.headId) == st'.head
    requires st.head != 0 ==> st'.head == st.head + 1 && st.headId == tree.parent(st'.headId)
    requires st'.first == if st.first == 0 then st'.head else st.first
    ensures Chain(tree, rows', st')
  {
    hide ReceivedKey, ReceivedId;
    forall b: u32 | st'.first <= b <= st'.head ensures LinkAt(tree, rows', st'.first, b) {
      if b < st'.head {
        assert LinkAt(tree, rows, st.first, b);
      }
    }
  }

  lemma ReceivedAdvances(sc: Config, s: Session, m: Session, r: BlockResult)
    requires AllBelow(s, r.pos.num) && Once(sc, r.pos.num, r.steps) && Extends(sc, s, m, r.pos.num, r.steps)
    requires All(Advance(m, r)) == All(m)[ReceivedKey(r.pos.num) := ReceivedValue(r.pos.num, r.pos.id)]
    ensures SameReceived(All(s), All(Advance(m, r)), r.pos.num)
    ensures ReceivedKey(r.pos.num) in All(Advance(m, r)) && ReceivedId(All(Advance(m, r)), r.pos.num) == Some(r.pos.id)
  {
    hide IsRow, BlockOf, ReceivedKey, ReceivedValue, StepKey, All, Extends, Once, Advance;
    var num := r.pos.num;
    forall b: u32 | b != num
      ensures ReceivedId(All(m), b) == ReceivedId(All(s), b) && (ReceivedKey(b) in All(m) <==> ReceivedKey(b) in All(s))
      ensures ReceivedKey(b) != ReceivedKey(num)
    {
      OthersUntouched(sc, s, m, num, r.steps, b);
      BlockOfReceived(b);
      BlockOfReceived(num);
    }
    ReceivedRow(sc, num, r.pos.id);
  }

  lemma AdvanceKeeps(tree: Tree, sc: Config, s: Session, m: Session, r: BlockResult)
    requires Live(tree, sc, s) && AllBelow(s, r.pos.num) && Links(s, r) && Faithful(tree, r) &&
             Once(sc, r.pos.num, r.steps)
    requires Sane(sc, m) && m.alive && StatusOf(Now(m)) == StatusOf(Now(s)) && Extends(sc, s, m, r.pos.num, r.steps)
    requires s.st.irreversible <= r.irreversible.num && Durable(tree, Now(m))
    ensures Live(tree, sc, Advance(m, r)) && Advance(m, r).log == m.log
  {
    hide IsRow, BlockOf, EntrySet, ReceivedKey, ReceivedValue, ReceivedId, StepKey, Chain, Sane, All, Once, UpTo,
         Above, SameReceived, Durable;
    var num, a := r.pos.num, Advance(m, r);
    OthersUntouched(sc, s, m, num, r.steps, 0);
    AdvanceSane(sc, m, r);
    ReceivedAdvances(sc, s, m, r);
    if s.st.head != 0 { NumberFollows(tree, sc, s, r); }
    LiveHead(tree, sc, s, num);
    ChainGrows(tree, All(s), All(a), s.st, a.st);
    AdvanceBounds(tree, sc, s, m, r);
  }

  lemma LiveHead(tree: Tree, sc: Config, s: Session, num: u32)
    requires Live(tree, sc, s) && AllBelow(s, num) && 1 <= num
    ensures s.st.first <= s.st.head < num && (s.st.first == 0 <==> s.st.head == 0)
  {
    hide BlockOf, ReceivedKey;
    BlockOfReceived(s.st.head);
  }

  lemma AdvanceBounds(tree: Tree, sc: Config, s: Session, m: Session, r: BlockResult)
    requires Live(tree, sc, s) && AllBelow(s, r.pos.num) && 1 <= r.pos.num && Sane(sc, m) &&
             Extends(sc, s, m, r.pos.num, r.steps)
    requires All(Advance(m, r)) == All(m)[ReceivedKey(r.pos.num) := ReceivedValue(r.pos.num, r.pos.id)]
    requires s.st.irreversible <= r.irreversible.num
    ensures UpTo(All(Advance(m, r)), r.pos.num) && Above(All(Advance(m, r)), Advance(m, r).st)
  {
    hide IsRow, BlockOf, EntrySet, ReceivedKey, ReceivedValue, StepKey, Chain, All;
    var num, a := r.pos.num, Advance(m, r);
    LiveHead(tree, sc, s, num);
    BlockOfReceived(num);
    forall k | k in All(a)
      ensures 14 <= |k| && BlockOf(k) <= num && (k in All(s) || BlockOf(k) == num)
    {
      if k in All(m) && k !in All(s) {
        var i :| 0 <= i < |r.steps| && StepKey(sc, num, r.steps[i]) == Some(k);
        BlockOfStep(sc, num, r.steps[i]);
      }
    }
    SaneRows(sc, s);
    forall k | k in All(s) ensures 1 <= BlockOf(k) { }
  }

  // ---------- trimming ----------

  lemma ChainTrimmed(tree: Tree, sc: Config, rows: Db, st: Status, end: u32)
    requires Chain(tree, rows, st) && st.head > 0 && st.first < end <= st.head && end <= st.irreversible
    ensures var left := rows - Trimmed(sc, rows, st.first, end);
      Chain(tree, left, st.(first := end)) && Above(left, st.(first := end))
  {
    hide BlockOf, ReceivedKey, TrimGroup, Superseded, Selected;
    var left := rows - Trimmed(sc, rows, st.first, end);
    forall b: u32
      ensures ReceivedKey(b) in left <==> end <= b <= st.head
      ensures end <= b <= st.head ==> ReceivedId(left, b) == ReceivedId(rows, b)
    {
      BlockOfReceived(b);
    }
    forall b: u32 | end <= b <= st.head ensures LinkAt(tree, left, end, b) {
      assert LinkAt(tree, rows, st.first, b);
    }
  }

  lemma TrimKeeps(tree: Tree, sc: Config, s: Session)
    requires Live(tree, sc, s) && s.content == map[] && s.index == {}
    ensures var r := Trim(sc, s);
      && Live(tree, sc, r) && (r == s || (|r.log| == |s.log| + 1 && r.log[..|s.log|] == s.log && Settled(sc, Now(r))))
  {
    hide IsRow, BlockOf, EntrySet, ReceivedKey, ReceivedId, Chain, Above, Ideal, Durable, Settled, Trimmed, Restrict,
         Recoverable;
    var r := Trim(sc, s);
    if r != s {
      var im, end := Now(s), r.st.first;
      assert im.rows + map[] == im.rows;
      SaneRows(sc, s);
      var gone := Trimmed(sc, im.rows, s.st.first, end);
      EntriesMinus(sc, im.rows, gone);
      HeadPositive(tree, sc, s);
      ChainTrimmed(tree, sc, im.rows, s.st, end);
      ChainStatus(tree, im.rows - gone, r.st);
      CleanIsSettled(sc, Now(r));
      SettledDurable(tree, sc, Now(r), r.st);
      SettledRecoverable(sc, Now(r));
      NoEntries(sc);
      assert (im.rows - gone) + map[] == im.rows - gone;
    }
  }

  lemma HeadPositive(tree: Tree, sc: Config, s: Session)
    requires Live(tree, sc, s)
    ensures s.st.first < s.st.head ==> s.st.head > 0
  {
  }
}
