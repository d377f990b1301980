/** A session of the filler, as the sequence of images its batches leave in the database. */
module History {
  import opened Bytes
  import opened Store
  import opened KeyCodec
  import opened Tables
  import opened Trimming

  type Id = b: Bytes | |b| == 32 witness ZEROS

  const ZEROS: Bytes := [0, 0, 0, 0, 0, 0, 0, 0, 0, 0, 0, 0, 0, 0, 0, 0, 0, 0, 0, 0, 0, 0, 0, 0, 0, 0, 0, 0, 0, 0, 0, 0]

  const ZERO: Id := ZEROS

  datatype Status = Status(head: u32, headId: Id, irreversible: u32, irreversibleId: Id, first: u32)

  const EMPTY: Status := Status(0, ZERO, 0, ZERO, 0)

  /** All that the database holds: rows, index entries and the fill status. */
  datatype Image = Image(rows: Db, entries: set<Bytes>, status: Option<Status>)

  /** The images after each written batch, the two batches being filled, and the fields of flm_session. */
  datatype AnySession = Session(log: seq<Image>, content: Db, index: set<Bytes>, st: Status, alive: bool)

  /** The log starts with the image that the session found. */
  type Session = s: AnySession | s.log != [] witness Session([Image(map[], {}, None)], map[], {}, EMPTY, true)

  // ---------- received_block rows ----------

  function ReceivedKey(block: u32): (r: Bytes)
    ensures |r| == 14
  {
    RowPrefix(block, RECEIVED, true)
  }

  function ReceivedValue(block: u32, id: Id): Bytes
  {
    LittleEndian(block, 4) + id
  }

  function ReceivedId(rows: Db, block: u32): Option<Id>
  {
    if ReceivedKey(block) in rows && 36 <= |rows[ReceivedKey(block)]| then Some(rows[ReceivedKey(block)][4..36])
    else None
  }

  // ---------- writes ----------

  ghost function Now(s: Session): Image
  {
    s.log[|s.log| - 1]
  }

  /** write_fill_status never says that a block after head is irreversible. */
  function Clamp(st: Status): Status
  {
    if st.irreversible < st.head then st else st.(irreversible := st.head, irreversibleId := st.headId)
  }

  /** end_write: the content batch, then the index batch, which may carry the status. */
  ghost function EndWrite(s: Session, fill: bool): (r: Session)
  {
    var a := Now(s).(rows := Now(s).rows + s.content);
    var b := a.(entries := a.entries + s.index, status := if fill then Some(Clamp(s.st)) else a.status);
    s.(log := s.log + [a, b], content := map[], index := {})
  }

  function Before(block: u32): u32 { if block == 0 then 0xffff_ffff else block - 1 }

  function After(block: u32): u32 { if block == 0xffff_ffff then 0 else block + 1 }

  function From(rows: Db, block: u32): set<Bytes>
  {
    set k | k in rows && 14 <= |k| && block <= BlockOf(k)
  }

  /** truncate: forget block and all after it. Entries are erased before rows. */
  ghost function Truncate(sc: Config, s: Session, block: u32): (r: Session)
  {
    var im := Now(s);
    var gone := From(im.rows, block);
    var id := ReceivedId(im.rows, Before(block));
    var head := if id.Some? then Before(block) else 0;
    var st := s.st.(head := head, headId := if id.Some? then id.value else ZERO,
                    first := if s.st.first < head then s.st.first else head);
    var a := im.(entries := im.entries - EntrySet(sc, Restrict(im.rows, gone)));
    s.(log := s.log + [a, a.(rows := im.rows - gone)], st := st)
  }

  /** received_abi: load the status, then repair what a stop may have left behind. */
  ghost function Open(sc: Config, im: Image): (r: Session)
  {
    var s := Session([im], map[], {}, if im.status.Some? then im.status.value else EMPTY, true);
    var s1 := EndWrite(s, true);
    EndWrite(Truncate(sc, s1, After(s1.st.head)), true)
  }

  /** trim: one batch. */
  ghost function Trim(sc: Config, s: Session): (r: Session)
  {
    var end := if s.st.head < s.st.irreversible then s.st.head else s.st.irreversible;
    if s.st.first >= end then s else
      var im := Now(s);
      var gone := Trimmed(sc, im.rows, s.st.first, end);
      var st := s.st.(first := end);
      var d := Image(im.rows - gone, im.entries - EntrySet(sc, Restrict(im.rows, gone)), Some(Clamp(st)));
      s.(log := s.log + [d], st := st)
  }

  // ---------- blocks ----------

  /** What a block does to the batches: rows, and the partial writes of a very long delta. */
  datatype Step = Add(name: Name, present: bool, value: Bytes) | Flush

  datatype Position = Position(num: u32, id: Id)

  datatype BlockResult = BlockResult(pos: Position, prev: Option<Position>, irreversible: Position, steps: seq<Step>)

  datatype Settings = Settings(stopBefore: u32, trim: bool)

  /** An exception closes the session, and its batches are gone. */
  function Dead(s: Session): Session
  {
    s.(content := map[], index := {}, alive := false)
  }

  ghost function Do(sc: Config, s: Session, num: u32, step: Step): (r: Session)
  {
    if !s.alive then s else
    match step
    case Flush => EndWrite(s, false)
    case Add(name, present, v) =>
      var k := RowKey(sc, num, name, present, v);
      var xs := RowEntries(sc, num, name, present, v);
      if k.None? || xs.None? then Dead(s)
      else s.(content := s.content[k.value := v], index := s.index + set x | x in xs.value)
  }

  ghost function DoAll(sc: Config, s: Session, num: u32, steps: seq<Step>): (r: Session)
  {
    if steps == [] then s else Do(sc, DoAll(sc, s, num, steps[..|steps| - 1]), num, steps[|steps| - 1])
  }

  ghost function SwitchForks(sc: Config, s: Session, num: u32): (r: Session)
  {
    if num <= s.st.head then EndWrite(Truncate(sc, EndWrite(s, true), num), true) else s
  }

  predicate Links(s: Session, r: BlockResult)
  {
    s.st.headId == ZERO || (r.prev.Some? && r.prev.value.id == s.st.headId)
  }

  /** Write now: at every 200th block and near the irreversible one; block numbers have 32 bits. */
  predicate CommitNow(r: BlockResult)
  {
    r.pos.num % 200 == 0 || (r.pos.num + 4) % 0x1_0000_0000 >= r.irreversible.num
  }

  /** The block's rows are in; now the session is at this block. */
  ghost function Advance(s: Session, r: BlockResult): (r': Session)
  {
    var st := Status(r.pos.num, r.pos.id, r.irreversible.num, r.irreversible.id,
                     if s.st.first == 0 then r.pos.num else s.st.first);
    s.(content := s.content[ReceivedKey(r.pos.num) := ReceivedValue(r.pos.num, r.pos.id)], st := st)
  }

  ghost function Commit(sc: Config, cfg: Settings, s: Session): (r: Session)
  {
    if cfg.trim then Trim(sc, EndWrite(s, true)) else EndWrite(s, true)
  }

  /** A block that follows the session's head, if it does. */
  ghost function Process(sc: Config, cfg: Settings, s: Session, r: BlockResult): Session
  {
    if !Links(s, r) then Dead(s) else
      var s2 := DoAll(sc, s, r.pos.num, r.steps);
      if !s2.alive then s2
      else if CommitNow(r) then Commit(sc, cfg, Advance(s2, r)) else Advance(s2, r)
  }

  /** received: one block from the node. A session that is not alive has been closed. */
  ghost function Received(sc: Config, cfg: Settings, s: Session, r: BlockResult): Session
  {
    if !s.alive then s
    else if cfg.stopBefore != 0 && r.pos.num >= cfg.stopBefore then Dead(EndWrite(s, true))
    else Process(sc, cfg, SwitchForks(sc, s, r.pos.num), r)
  }

  ghost function Run(sc: Config, cfg: Settings, s: Session, rs: seq<BlockResult>): (r: Session)
  {
    if rs == [] then s else Received(sc, cfg, Run(sc, cfg, s, rs[..|rs| - 1]), rs[|rs| - 1])
  }
}
