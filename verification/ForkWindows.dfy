/** Switches of forks, and exactly which of their images a restart repairs. */
module ForkWindows {
  import opened Bytes
  import opened Store
  import opened KeyCodec
  import opened Tables
  import opened History
  import opened Recovery
  import opened Runs
  import opened Crashes

  // ---------- what a restart makes of any image ----------

  /** The status a restart ends with: the stored one, or none if the stored head's block is not there. */
  function Fallback(im: Image): Status
  {
    var st := StatusOf(im);
    var id := ReceivedId(im.rows, st.head);
    var head := if id.Some? then st.head else 0;
    st.(head := head, headId := if id.Some? then id.value else ZERO,
        first := if st.first < head then st.first else head)
  }

  /** The stored status is well-formed in itself: write_fill_status writes no other. */
  predicate Wellformed(st: Status)
  {
    && st.head < 0xffff_ffff && st.irreversible <= st.head && st.first <= st.head
    && (st.irreversible == st.head ==> st.irreversibleId == st.headId)
    && (st.head == 0 ==> st.headId == ZERO)
  }

  lemma WriteNothing(s: Session)
    requires s.content == map[] && s.index == {}
    ensures var r := EndWrite(s, true);
      Now(r) == Now(s).(status := Some(Clamp(s.st))) && r.st == s.st && r.content == map[] && r.index == {}
  {
    assert Now(s).rows + map[] == Now(s).rows && Now(s).entries + {} == Now(s).entries;
  }

  lemma TruncateResult(sc: Config, s: Session, block: u32)
    requires block > 0
    ensures var im := Now(s); var r := Truncate(sc, s, block); var gone := From(im.rows, block);
      Now(r) == im.(rows := im.rows - gone, entries := im.entries - EntrySet(sc, Restrict(im.rows, gone)))
    ensures var id := ReceivedId(Now(s).rows, block - 1); var head := if id.Some? then block - 1 else 0;
      Truncate(sc, s, block).st == s.st.(head := head, headId := if id.Some? then id.value else ZERO,
                                        first := if s.st.first < head then s.st.first else head)
    ensures Truncate(sc, s, block).content == s.content && Truncate(sc, s, block).index == s.index
  {
    hide ReceivedId, EntrySet, BlockOf, Restrict, From;
  }

  /** A restart keeps the rows up to the stored head, erases the entries of the others, and falls back. */
  lemma OpenResult(sc: Config, im: Image)
    requires GoodRows(sc, im.rows) && Wellformed(StatusOf(im))
    ensures var beyond := From(im.rows, After(StatusOf(im).head));
      Now(Open(sc, im)) ==
        Image(Kept(im), im.entries - EntrySet(sc, Restrict(im.rows, beyond)), Some(Clamp(Fallback(im))))
    ensures Open(sc, im).st == Fallback(im)
  {
    hide ReceivedId, EntrySet, IsRow, BlockOf, Restrict, From, EndWrite, Truncate, GoodRows, Kept, Clamp;
    var s := Session([im], map[], {}, StatusOf(im), true);
    WriteNothing(s);
    var s1 := EndWrite(s, true);
    var block := After(s1.st.head);
    TruncateResult(sc, s1, block);
    WriteNothing(Truncate(sc, s1, block));
    KeptIsMinus(sc, im);
  }

  /** For an image with a row for each entry, a restart gives exactly the image of the stored status if and only if the
      stored head's block is there and the rows up to it have all their entries. */
  lemma RestartExactly(sc: Config, im: Image)
    requires Sound(sc, im) && Wellformed(StatusOf(im))
    ensures Now(Open(sc, im)) == Ideal(sc, im) <==>
      (StatusOf(im).head == 0 || ReceivedId(im.rows, StatusOf(im).head) == Some(StatusOf(im).headId))
      && EntrySet(sc, Kept(im)) <= im.entries
  {
    hide ReceivedId, EntrySet, IsRow, BlockOf, Restrict, Open;
    OpenResult(sc, im);
    var st := StatusOf(im);
    if (st.head == 0 || ReceivedId(im.rows, st.head) == Some(st.headId)) && EntrySet(sc, Kept(im)) <= im.entries {
      assert StatusOk(st, im.rows);
      RestartRestores(sc, im);
    }
  }

  /** A restart keeps the head exactly when the stored head's block is there. */
  lemma RestartHead(sc: Config, im: Image)
    requires im.status.Some? && 0 < im.status.value.head < 0xffff_ffff && GoodRows(sc, im.rows)
    ensures Open(sc, im).st.head == im.status.value.head <==> ReceivedId(im.rows, im.status.value.head).Some?
    ensures ReceivedId(im.rows, im.status.value.head).None? ==>
      Open(sc, im).st.head == 0 && Open(sc, im).st.headId == ZERO
    ensures Now(Open(sc, im)).rows == im.rows - From(im.rows, After(im.status.value.head))
  {
    hide ReceivedId, EntrySet, IsRow, BlockOf;
    assert im.rows + map[] == im.rows;
  }

  // ---------- the images of a switch ----------

  /** The rows of a session before a block. */
  ghost function Left(s: Session, num: u32): Db
  {
    All(s) - From(All(s), num)
  }

  /** The image that the first end_write of a switch leaves. */
  ghost function Ended(sc: Config, s: Session): Image
  {
    Image(All(s), EntrySet(sc, All(s)), Some(Clamp(s.st)))
  }

  /** The six images of a switch: rows and entries with the status, entries erased, rows erased, and the new status. */
  lemma SwitchLog(tree: Tree, sc: Config, s: Session, num: u32)
    requires Live(tree, sc, s) && 1 <= num <= s.st.head && s.st.irreversible < num
    ensures var r := SwitchForks(sc, s, num); var e := Ended(sc, s); var left := Left(s, num);
      && r.log == s.log + [Now(s).(rows := All(s)), e, e.(entries := EntrySet(sc, left)),
           e.(rows := left, entries := EntrySet(sc, left)), e.(rows := left, entries := EntrySet(sc, left)), Now(r)]
      && SameIdeal(sc, Now(s), Now(s).(rows := All(s))) && Settled(sc, e) && Settled(sc, Now(r))
      && Durable(tree, Now(r)) && Live(tree, sc, r)
    ensures GoodRows(sc, All(s)) && GoodRows(sc, Left(s, num)) && Durable(tree, Ended(sc, s))
  {
    hide ReceivedId, EntrySet, IsRow, BlockOf, Recoverable, Ideal, Kept, Above, Restrict, Chain, From, Clamp;
    LiveAtBlock(tree, sc, s);
    EndWriteSettles(sc, s);
    SaneRows(sc, s);
    LiveAfterEndWrite(tree, sc, s);
    var e := EndWrite(s, true);
    ForkTruncates(tree, sc, e, num);
    RewriteStatus(tree, sc, Truncate(sc, e, num));
    assert Now(e).rows == All(s);
  }

  lemma SwitchRows(tree: Tree, sc: Config, s: Session, num: u32)
    requires Live(tree, sc, s) && 1 <= num <= s.st.head
    ensures Wellformed(Clamp(s.st)) && 0 < Clamp(s.st).head == s.st.head
    ensures ReceivedId(All(s), s.st.head) == Some(s.st.headId) && ReceivedId(Left(s, num), s.st.head) == None
    ensures UpTo(All(s), s.st.head) && From(All(s), After(s.st.head)) == {}
      && From(Left(s, num), After(s.st.head)) == {}
    ensures s.st.first < num ==> ReceivedKey(s.st.first) in Left(s, num)
  {
    hide EntrySet, IsRow, BlockOf, ReceivedKey, Recoverable, Ideal, Kept, Above, Durable;
    BlockOfReceived(s.st.head);
    BlockOfReceived(s.st.first);
  }

  lemma ErasedEntries(sc: Config, s: Session, num: u32)
    requires GoodRows(sc, All(s))
    ensures EntrySet(sc, Left(s, num)) == EntrySet(sc, All(s)) - EntrySet(sc, Restrict(All(s), From(All(s), num)))
    ensures EntrySet(sc, Restrict(All(s), From(All(s), num))) <= EntrySet(sc, All(s))
  {
    hide EntrySet, IsRow, From;
    var gone := Restrict(All(s), From(All(s), num));
    EntriesMinus(sc, All(s), From(All(s), num));
    EntriesMonotone(sc, gone, All(s));
  }

  lemma NothingErasedBeyond(sc: Config, rows: Db)
    ensures EntrySet(sc, Restrict(rows, {})) == {}
  {
  }

  lemma FallbackIsStatus(im: Image)
    requires Wellformed(StatusOf(im)) && ReceivedId(im.rows, StatusOf(im).head) == Some(StatusOf(im).headId)
    ensures Fallback(im) == StatusOf(im)
  {
    hide ReceivedId;
  }

  /** A restart changes nothing in an image that ends at its head. */
  lemma OpenChangesNothing(sc: Config, w: Image)
    requires GoodRows(sc, w.rows) && w.status.Some? && Wellformed(w.status.value)
      && Clamp(w.status.value) == w.status.value
    requires ReceivedId(w.rows, w.status.value.head) == Some(w.status.value.headId)
    requires UpTo(w.rows, w.status.value.head) && From(w.rows, After(w.status.value.head)) == {}
    ensures Now(Open(sc, w)) == w && Open(sc, w).st == w.status.value
    ensures Ideal(sc, w) == w.(entries := EntrySet(sc, w.rows))
  {
    hide ReceivedId, EntrySet, IsRow, Restrict, From, Open, Clamp, Kept, Fallback, Wellformed, UpTo;
    OpenResult(sc, w);
    NothingErasedBeyond(sc, w.rows);
    KeptAll(w);
    FallbackIsStatus(w);
  }

  lemma EndedIs(sc: Config, s: Session)
    ensures Ended(sc, s) == Image(All(s), EntrySet(sc, All(s)), Some(Clamp(s.st)))
  {
  }

  /** Between erasing the entries of a fork and erasing its rows, a stop makes a restart keep the head and all rows up
      to it, but no entries from the fork on: no query finds those rows any more. */
  lemma ForkWindowLosesEntries(tree: Tree, sc: Config, s: Session, num: u32)
    requires Live(tree, sc, s) && 1 <= num <= s.st.head && s.st.irreversible < num
    ensures var w := SwitchForks(sc, s, num).log[|s.log| + 2]; var o := Open(sc, w);
      && w == Ended(sc, s).(entries := EntrySet(sc, Left(s, num)))
      && o.st.head == s.st.head && Now(o) == w
      && (Now(o) == Ideal(sc, w) <==> EntrySet(sc, Restrict(All(s), From(All(s), num))) == {})
  {
    hide *;
    EndedIs(sc, s);
    SwitchLog(tree, sc, s, num);
    SwitchRows(tree, sc, s, num);
    ErasedEntries(sc, s, num);
    ClampHead(s.st);
    ClampTwice(s.st);
    OpenChangesNothing(sc, SwitchForks(sc, s, num).log[|s.log| + 2]);
  }

  lemma KeptAll(im: Image)
    requires UpTo(im.rows, StatusOf(im).head)
    ensures Kept(im) == im.rows
  {
    hide BlockOf;
  }

  lemma ClampHead(st: Status)
    ensures Clamp(st).head == st.head && Clamp(st).headId == st.headId && Clamp(st).first == st.first
  {
  }

  lemma ClampTwice(st: Status)
    ensures Clamp(Clamp(st)) == Clamp(st)
  {
  }

  /** Between erasing the rows of a fork and writing the status, a stop makes a restart forget its head while the rows
      before the fork are still there. Two images are such: after the row batch,
      and after the empty batch that follows. */
  lemma ForkWindowLosesHead(tree: Tree, sc: Config, s: Session, num: u32)
    requires Live(tree, sc, s) && 1 <= num <= s.st.head && s.st.irreversible < num
    ensures var log := SwitchForks(sc, s, num).log; var w := log[|s.log| + 3]; var o := Open(sc, w);
      && log[|s.log| + 4] == w && o.st.head == 0 && Now(o).rows == Left(s, num)
      && Now(o).status.Some? && Now(o).status.value.head == 0 && !Recoverable(sc, w)
      && (s.st.first < num ==> ReceivedKey(s.st.first) in Now(o).rows)
  {
    hide ReceivedId, EntrySet, IsRow, BlockOf, Recoverable, Chain, Above, Restrict, Durable, From, Open, All, Clamp,
         ReceivedKey, Ideal;
    SwitchLog(tree, sc, s, num);
    SwitchRows(tree, sc, s, num);
    ClampHead(s.st);
    var w := SwitchForks(sc, s, num).log[|s.log| + 3];
    OpenResult(sc, w);
    LeftUpTo(s, num);
    KeptAll(w);
    ClampHead(Fallback(w));
    NotRecoverable(sc, w);
  }

  lemma NotRecoverable(sc: Config, im: Image)
    requires StatusOf(im).head > 0 && ReceivedId(im.rows, StatusOf(im).head) == None
    ensures !Recoverable(sc, im)
  {
    hide ReceivedId;
  }

  lemma LeftUpTo(s: Session, num: u32)
    requires UpTo(All(s), s.st.head)
    ensures UpTo(Left(s, num), s.st.head)
  {
    hide BlockOf, From;
  }

  // ---------- which images of a run a restart repairs ----------

  /** The places in the log of the images that a block leaves unrepairable: of a switch, the image without the fork's
      entries, if it had any, and the two without its rows. */
  ghost function Window(sc: Config, cfg: Settings, s: Session, r: BlockResult): set<nat>
  {
    if !s.alive || (cfg.stopBefore != 0 && r.pos.num >= cfg.stopBefore) || r.pos.num > s.st.head then {}
    else (if EntrySet(sc, Restrict(All(s), From(All(s), r.pos.num))) == {} then {} else {|s.log| + 2})
           + {|s.log| + 3, |s.log| + 4}
  }

  ghost function Windows(sc: Config, cfg: Settings, s: Session, rs: seq<BlockResult>): set<nat>
  {
    if rs == [] then {} else
      var init := rs[..|rs| - 1];
      Windows(sc, cfg, s, init) + Window(sc, cfg, Run(sc, cfg, s, init), rs[|rs| - 1])
  }

  /** A restart from image n leads to the last image that a status was written with, and can go on. */
  ghost predicate GoodAt(tree: Tree, sc: Config, log: seq<Image>, n: nat)
  {
    n < |log| && Restartable(tree, sc, log[n]) && Ideal(sc, log[n]) == LastSettled(sc, log, n)
  }

  ghost predicate BadAt(sc: Config, log: seq<Image>, n: nat)
  {
    n < |log| && Now(Open(sc, log[n])) != LastSettled(sc, log, n)
  }

  lemma {:induction false} LastSettledPrefix(sc: Config, log: seq<Image>, log': seq<Image>, n: nat)
    requires log <= log' && n < |log|
    ensures LastSettled(sc, log', n) == LastSettled(sc, log, n)
  {
    hide Settled, Ideal;
    if n > 0 {
      LastSettledPrefix(sc, log, log', n - 1);
    }
  }

  lemma PrefixGood(tree: Tree, sc: Config, log: seq<Image>, log': seq<Image>, n: nat)
    requires log <= log' && n < |log|
    ensures GoodAt(tree, sc, log, n) <==> GoodAt(tree, sc, log', n)
    ensures BadAt(sc, log, n) <==> BadAt(sc, log', n)
  {
    hide Restartable, Ideal, Open;
    LastSettledPrefix(sc, log, log', n);
  }

  lemma GoodStep(tree: Tree, sc: Config, log: seq<Image>, n: nat)
    requires 0 < n < |log| && GoodAt(tree, sc, log, n - 1) && StepOk(tree, sc, log[n - 1], log[n])
    ensures GoodAt(tree, sc, log, n)
  {
    hide Durable, Recoverable, Ideal;
  }

  lemma {:induction false} SteadyGood(tree: Tree, sc: Config, s: Session, r: Session, n: nat)
    requires Steady(tree, sc, s, r) && GoodAt(tree, sc, s.log, |s.log| - 1) && |s.log| <= n < |r.log|
    ensures GoodAt(tree, sc, r.log, n)
    decreases n
  {
    hide GoodAt, StepOk;
    if n == |s.log| {
      PrefixGood(tree, sc, s.log, r.log, n - 1);
    } else {
      SteadyGood(tree, sc, s, r, n - 1);
    }
    GoodStep(tree, sc, r.log, n);
  }

  lemma SettledGood(tree: Tree, sc: Config, log: seq<Image>, n: nat)
    requires n < |log| && Settled(sc, log[n]) && Durable(tree, log[n])
    ensures GoodAt(tree, sc, log, n) && LastSettled(sc, log, n) == log[n]
  {
    hide Durable, Recoverable, Ideal;
  }

  /** An image that a restart does not take to its ideal is not settled. */
  lemma NotSettled(sc: Config, log: seq<Image>, n: nat)
    requires 0 < n < |log| && !Recoverable(sc, log[n])
    ensures LastSettled(sc, log, n) == LastSettled(sc, log, n - 1)
  {
    hide Recoverable, Ideal;
  }

  /** The first three images of a switch. */
  lemma SwitchStart(tree: Tree, sc: Config, s: Session, num: u32)
    requires Live(tree, sc, s) && 1 <= num <= s.st.head && s.st.irreversible < num
    requires GoodAt(tree, sc, s.log, |s.log| - 1)
    ensures var log := SwitchForks(sc, s, num).log; var l := |s.log|; var e := Ended(sc, s);
      && |log| == l + 6 && GoodAt(tree, sc, log, l) && GoodAt(tree, sc, log, l + 1)
      && LastSettled(sc, log, l + 1) == e && LastSettled(sc, log, l + 2) == e
      && (if EntrySet(sc, Restrict(All(s), From(All(s), num))) == {} then GoodAt(tree, sc, log, l + 2)
        else BadAt(sc, log, l + 2))
  {
    hide ReceivedId, EntrySet, IsRow, BlockOf, Recoverable, Chain, Above, Restrict, Durable, From, Open, All, Clamp,
         Left, GoodAt, BadAt, Settled, Ended, Ideal, Live, StepOk;
    SwitchLog(tree, sc, s, num);
    var log, l := SwitchForks(sc, s, num).log, |s.log|;
    LiveDurable(tree, sc, s);
    SameIdealDurable(tree, sc, Now(s), log[l]);
    PrefixGood(tree, sc, s.log, log, l - 1);
    GoodStep(tree, sc, log, l);
    SettledGood(tree, sc, log, l + 1);
    ThirdImage(tree, sc, s, num, log);
  }

  lemma LiveDurable(tree: Tree, sc: Config, s: Session)
    requires Live(tree, sc, s)
    ensures Durable(tree, Now(s))
  {
  }

  lemma ThirdImage(tree: Tree, sc: Config, s: Session, num: u32, log: seq<Image>)
    requires Live(tree, sc, s) && 1 <= num <= s.st.head && s.st.irreversible < num && log == SwitchForks(sc, s, num).log
    requires |log| == |s.log| + 6 && log[|s.log| + 1] == Ended(sc, s)
      && LastSettled(sc, log, |s.log| + 1) == Ended(sc, s)
    requires Settled(sc, Ended(sc, s)) && Durable(tree, Ended(sc, s)) && GoodRows(sc, All(s))
    ensures LastSettled(sc, log, |s.log| + 2) == Ended(sc, s)
    ensures if EntrySet(sc, Restrict(All(s), From(All(s), num))) == {} then GoodAt(tree, sc, log, |s.log| + 2)
            else BadAt(sc, log, |s.log| + 2)
  {
    hide ReceivedId, EntrySet, IsRow, BlockOf, Recoverable, Chain, Above, Restrict, Durable, From, Open, All, Clamp,
         Left, Settled, Ideal, Live, SwitchForks;
    var l, e := |s.log|, Ended(sc, s);
    ForkWindowLosesEntries(tree, sc, s, num);
    ErasedEntries(sc, s, num);
    if EntrySet(sc, Restrict(All(s), From(All(s), num))) == {} {
      assert log[l + 2] == e;
      SettledGood(tree, sc, log, l + 2);
    } else {
      RestoredIfRecoverable(sc, log[l + 2]);
      NotSettled(sc, log, l + 2);
    }
  }

  lemma RestoredIfRecoverable(sc: Config, im: Image)
    ensures Recoverable(sc, im) ==> Now(Open(sc, im)) == Ideal(sc, im)
  {
    if Recoverable(sc, im) { RestartRestores(sc, im); }
  }

  /** All images of a switch: repairable exactly outside the window. */
  lemma SwitchRestarts(tree: Tree, sc: Config, cfg: Settings, s: Session, r: BlockResult, n: nat)
    requires Live(tree, sc, s) && 1 <= r.pos.num <= s.st.head && s.st.irreversible < r.pos.num
    requires cfg.stopBefore == 0 || r.pos.num < cfg.stopBefore
    requires GoodAt(tree, sc, s.log, |s.log| - 1) && |s.log| <= n < |SwitchForks(sc, s, r.pos.num).log|
    ensures var log := SwitchForks(sc, s, r.pos.num).log;
      if n in Window(sc, cfg, s, r) then BadAt(sc, log, n) else GoodAt(tree, sc, log, n)
  {
    hide ReceivedId, EntrySet, IsRow, BlockOf, Recoverable, Chain, Above, Restrict, Durable, From, Open, All, Clamp,
         Left, GoodAt, Settled, Ideal, Live, SwitchForks;
    var num, l := r.pos.num, |s.log|;
    var log := SwitchForks(sc, s, num).log;
    LiveAlive(tree, sc, s);
    SwitchStart(tree, sc, s, num);
    SwitchLog(tree, sc, s, num);
    SwitchRows(tree, sc, s, num);
    ForkWindowLosesHead(tree, sc, s, num);
    NotSettled(sc, log, l + 3);
    NotSettled(sc, log, l + 4);
    SettledGood(tree, sc, log, l + 5);
  }

  /** After the switch, if there is one, a block's images are steady. */
  lemma SteadyAfterSwitch(tree: Tree, sc: Config, cfg: Settings, s: Session, r: BlockResult)
    requires Live(tree, sc, s) && Allowed(tree, sc, s, r) && (cfg.stopBefore == 0 || r.pos.num < cfg.stopBefore)
    ensures Steady(tree, sc, SwitchForks(sc, s, r.pos.num), Received(sc, cfg, s, r))
  {
    hide Live, Steady, Advance, Commit, DoAll, EndWrite, SwitchForks, Links, AllBelow, Faithful, Once;
    LiveAlive(tree, sc, s);
    FaithfulNum(tree, r);
    SwitchKeeps(tree, sc, s, r.pos.num);
    var s1 := SwitchForks(sc, s, r.pos.num);
    if Links(s1, r) {
      AllowedAfterSwitch(tree, sc, s, s1, r);
      AfterSwitchKeeps(tree, sc, cfg, s1, r);
    } else {
      SteadySelf(tree, sc, s1);
      SteadyDead(tree, sc, s1, s1);
    }
  }

  lemma SteadyPrefix(tree: Tree, sc: Config, s: Session, r: Session)
    requires Steady(tree, sc, s, r)
    ensures s.log <= r.log
  {
    assert r.log[..|s.log|] == s.log;
  }

  lemma NoSwitch(sc: Config, cfg: Settings, s: Session, r: BlockResult)
    requires s.st.head < r.pos.num
    ensures SwitchForks(sc, s, r.pos.num) == s && Window(sc, cfg, s, r) == {}
  {
  }

  /** The window of a block lies among its images, and before the last of them. */
  lemma WindowBounds(tree: Tree, sc: Config, cfg: Settings, s: Session, r: BlockResult)
    requires Live(tree, sc, s) && Allowed(tree, sc, s, r)
    ensures s.log <= Received(sc, cfg, s, r).log
    ensures forall i :: i in Window(sc, cfg, s, r) ==> |s.log| <= i && i + 1 < |Received(sc, cfg, s, r).log|
  {
    hide EntrySet, Restrict, From, Live, SwitchForks, Ended, Left, Steady, Process, SoundSince;
    BlockKeeps(tree, sc, cfg, s, r);
    SoundPrefix(sc, s, Received(sc, cfg, s, r));
    FaithfulNum(tree, r);
    if r.pos.num <= s.st.head && (cfg.stopBefore == 0 || r.pos.num < cfg.stopBefore) {
      SwitchLog(tree, sc, s, r.pos.num);
      SteadyAfterSwitch(tree, sc, cfg, s, r);
      SteadyPrefix(tree, sc, SwitchForks(sc, s, r.pos.num), Received(sc, cfg, s, r));
    }
  }

  lemma SoundPrefix(sc: Config, s: Session, r: Session)
    requires SoundSince(sc, s, r)
    ensures s.log <= r.log
  {
    assert r.log[..|s.log|] == s.log;
  }

  /** All images that a block leaves. */
  lemma BlockRestarts(tree: Tree, sc: Config, cfg: Settings, s: Session, r: BlockResult, n: nat)
    requires Live(tree, sc, s) && Allowed(tree, sc, s, r) && GoodAt(tree, sc, s.log, |s.log| - 1)
    requires |s.log| <= n < |Received(sc, cfg, s, r).log|
    ensures var log := Received(sc, cfg, s, r).log;
      && s.log <= log && (if n in Window(sc, cfg, s, r) then BadAt(sc, log, n) else GoodAt(tree, sc, log, n))
  {
    hide Live, Steady, GoodAt, BadAt, SwitchForks, EndWrite, Process, Window, Faithful, Once;
    LiveAlive(tree, sc, s);
    FaithfulNum(tree, r);
    var s', num := Received(sc, cfg, s, r), r.pos.num;
    if cfg.stopBefore != 0 && num >= cfg.stopBefore {
      StoppedHasNoWindow(sc, cfg, s, r);
      WriteIsSteady(tree, sc, s);
      SteadyDead(tree, sc, s, EndWrite(s, true));
      SteadyPrefix(tree, sc, s, s');
      SteadyGood(tree, sc, s, s', n);
    } else {
      var s1 := SwitchForks(sc, s, num);
      SteadyAfterSwitch(tree, sc, cfg, s, r);
      SteadyPrefix(tree, sc, s1, s');
      if s.st.head < num {
        NoSwitch(sc, cfg, s, r);
        SteadyGood(tree, sc, s, s', n);
      } else {
        SwitchThenSteady(tree, sc, cfg, s, s', r, n);
      }
    }
  }

  lemma StoppedHasNoWindow(sc: Config, cfg: Settings, s: Session, r: BlockResult)
    requires cfg.stopBefore != 0 && r.pos.num >= cfg.stopBefore
    ensures Window(sc, cfg, s, r) == {}
  {
  }

  lemma WindowEnds(sc: Config, cfg: Settings, s: Session, r: BlockResult)
    ensures forall i :: i in Window(sc, cfg, s, r) ==> |s.log| + 2 <= i <= |s.log| + 4
  {
    hide EntrySet, Restrict, From;
  }

  lemma AllowedNum(tree: Tree, sc: Config, s: Session, r: BlockResult)
    requires Allowed(tree, sc, s, r)
    ensures 1 <= r.pos.num && (r.pos.num <= s.st.head ==> s.st.irreversible < r.pos.num)
  {
    hide Once;
  }

  lemma SwitchThenSteady(tree: Tree, sc: Config, cfg: Settings, s: Session, s': Session, r: BlockResult, n: nat)
    requires Live(tree, sc, s) && Allowed(tree, sc, s, r) && GoodAt(tree, sc, s.log, |s.log| - 1)
    requires r.pos.num <= s.st.head && (cfg.stopBefore == 0 || r.pos.num < cfg.stopBefore)
    requires Steady(tree, sc, SwitchForks(sc, s, r.pos.num), s') && SwitchForks(sc, s, r.pos.num).log <= s'.log
    requires |s.log| <= n < |s'.log|
    ensures s.log <= s'.log
    ensures if n in Window(sc, cfg, s, r) then BadAt(sc, s'.log, n) else GoodAt(tree, sc, s'.log, n)
  {
    hide *;
    AllowedNum(tree, sc, s, r);
    var s1 := SwitchForks(sc, s, r.pos.num);
    SwitchLog(tree, sc, s, r.pos.num);
    if n < |s1.log| {
      SwitchRestarts(tree, sc, cfg, s, r, n);
      PrefixGood(tree, sc, s1.log, s'.log, n);
    } else {
      var last := |s1.log| - 1;
      WindowEnds(sc, cfg, s, r);
      SettledGood(tree, sc, s1.log, last);
      SteadyGood(tree, sc, s1, s', n);
    }
  }

  /** The windows of a run lie in its log, and an open session does not stand in one. */
  lemma {:induction false} WindowsBound(tree: Tree, sc: Config, cfg: Settings, s: Session, rs: seq<BlockResult>)
    requires Live(tree, sc, s) && AllowedRun(tree, sc, cfg, s, rs)
    ensures var m := Run(sc, cfg, s, rs);
      && s.log <= m.log && (m.alive ==> Live(tree, sc, m) && |m.log| - 1 !in Windows(sc, cfg, s, rs))
      && forall i :: i in Windows(sc, cfg, s, rs) ==> i < |m.log|
    decreases |rs|
  {
    hide Live, Received, Window, Allowed;
    if rs != [] {
      var init, r := rs[..|rs| - 1], rs[|rs| - 1];
      WindowsBound(tree, sc, cfg, s, init);
      var m := Run(sc, cfg, s, init);
      if m.alive {
        WindowBounds(tree, sc, cfg, m, r);
        BlockKeeps(tree, sc, cfg, m, r);
      } else {
        DeadStays(sc, cfg, m, r);
        DeadHasNoWindow(sc, cfg, m, r);
      }
    }
  }

  lemma DeadHasNoWindow(sc: Config, cfg: Settings, s: Session, r: BlockResult)
    requires !s.alive
    ensures Window(sc, cfg, s, r) == {}
  {
  }

  /** Every image of a run, forks included, is repaired by a restart exactly when it is not in a window. */
  lemma {:induction false} RunRestarts(tree: Tree, sc: Config, cfg: Settings, s: Session, rs: seq<BlockResult>, n: nat)
    requires Live(tree, sc, s) && AllowedRun(tree, sc, cfg, s, rs) && n < |Run(sc, cfg, s, rs).log|
    requires forall i :: 0 <= i < |s.log| ==> GoodAt(tree, sc, s.log, i)
    ensures var log := Run(sc, cfg, s, rs).log;
      if n in Windows(sc, cfg, s, rs) then BadAt(sc, log, n) else GoodAt(tree, sc, log, n)
    decreases |rs|
  {
    hide Live, GoodAt, BadAt, Received, Window, Allowed;
    if rs != [] {
      var init, r := rs[..|rs| - 1], rs[|rs| - 1];
      var m, m' := Run(sc, cfg, s, init), Run(sc, cfg, s, rs);
      WindowsBound(tree, sc, cfg, s, init);
      if m.alive {
        WindowBounds(tree, sc, cfg, m, r);
        if n < |m.log| {
          RunRestarts(tree, sc, cfg, s, init, n);
          PrefixGood(tree, sc, m.log, m'.log, n);
        } else {
          RunRestarts(tree, sc, cfg, s, init, |m.log| - 1);
          BlockRestarts(tree, sc, cfg, m, r, n);
        }
      } else {
        DeadStays(sc, cfg, m, r);
        DeadHasNoWindow(sc, cfg, m, r);
        RunRestarts(tree, sc, cfg, s, init, n);
      }
    }
  }

  lemma {:induction false} StepsGood(tree: Tree, sc: Config, log: seq<Image>, n: nat)
    requires n < |log| && Restartable(tree, sc, log[0]) && forall i :: 0 < i < |log| ==>
      StepOk(tree, sc, log[i - 1], log[i])
    ensures GoodAt(tree, sc, log, n)
  {
    hide StepOk, Restartable;
    if n > 0 {
      StepsGood(tree, sc, log, n - 1);
      GoodStep(tree, sc, log, n);
    }
  }

  /** The main result about stops, with forks and trims: for every image of every run, a restart leads to exactly the
      rows and entries as of the last status written if and only if the image is not in the window of a switch. */
  lemma StopAnywhereExactly(tree: Tree, sc: Config, cfg: Settings, im: Image, rs: seq<BlockResult>, n: nat)
    requires Restartable(tree, sc, im) && AllowedRun(tree, sc, cfg, Open(sc, im), rs)
    requires n < |Run(sc, cfg, Open(sc, im), rs).log|
    ensures var log := Run(sc, cfg, Open(sc, im), rs).log; var o := Open(sc, log[n]);
      && (Now(o) == LastSettled(sc, log, n) <==> n !in Windows(sc, cfg, Open(sc, im), rs))
      && (n !in Windows(sc, cfg, Open(sc, im), rs) ==> Restartable(tree, sc, log[n]) && Live(tree, sc, o))
  {
    hide Live, Run, AllowedRun, Open, Recoverable, Durable, Ideal, Windows, StepOk;
    var s := Open(sc, im);
    OpenIsLive(tree, sc, im);
    forall i | 0 <= i < |s.log| ensures GoodAt(tree, sc, s.log, i) {
      StepsGood(tree, sc, s.log, i);
    }
    RunRestarts(tree, sc, cfg, s, rs, n);
    var d := Run(sc, cfg, s, rs).log[n];
    if n !in Windows(sc, cfg, s, rs) {
      RestartRestores(sc, d);
      OpenIsLive(tree, sc, d);
    }
  }
}
