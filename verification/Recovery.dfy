/** What a stop between any two batches leaves, and how a restart repairs it. */
module Recovery {
  import opened Bytes
  import opened Store
  import opened KeyCodec
  import opened Tables
  import opened Trimming
  import opened History

  ghost predicate StatusOk(st: Status, rows: Db)
  {
    && st.head < 0xffff_ffff
    && st.irreversible <= st.head && (st.irreversible == st.head ==> st.irreversibleId == st.headId)
    && if st.head == 0 then st.headId == ZERO && st.first == 0
       else st.first <= st.head && ReceivedId(rows, st.head) == Some(st.headId)
  }

  function StatusOf(im: Image): Status
  {
    if im.status.Some? then im.status.value else EMPTY
  }

  /** The rows that the stored status vouches for. */
  ghost function Kept(im: Image): Db
  {
    map k | k in im.rows && 14 <= |k| && BlockOf(k) <= StatusOf(im).head :: im.rows[k]
  }

  /** The image as of the stored status: its rows, all their entries, and nothing else. */
  ghost function Ideal(sc: Config, im: Image): Image
  {
    Image(Kept(im), EntrySet(sc, Kept(im)), Some(StatusOf(im)))
  }

  /** Every entry has its row, and the rows up to the stored head have all their entries. */
  ghost predicate Recoverable(sc: Config, im: Image)
  {
    && GoodRows(sc, im.rows) && im.entries <= EntrySet(sc, im.rows) && EntrySet(sc, Kept(im)) <= im.entries
    && StatusOk(StatusOf(im), im.rows)
  }

  ghost predicate Settled(sc: Config, im: Image)
  {
    Recoverable(sc, im) && Ideal(sc, im) == im
  }

  ghost predicate SameIdeal(sc: Config, im: Image, d: Image)
  {
    Recoverable(sc, d) && Ideal(sc, d) == Ideal(sc, im)
  }

  lemma IdealUnchanged(sc: Config, im: Image, d: Image)
    requires Recoverable(sc, im) && GoodRows(sc, d.rows)
    requires StatusOf(d) == StatusOf(im) && Kept(d) == Kept(im) && StatusOk(StatusOf(d), d.rows)
    requires EntrySet(sc, Kept(im)) <= d.entries <= EntrySet(sc, d.rows)
    ensures SameIdeal(sc, im, d)
  {
  }

  lemma KeptIsMinus(sc: Config, im: Image)
    requires GoodRows(sc, im.rows) && StatusOf(im).head < 0xffff_ffff
    ensures Kept(im) == im.rows - From(im.rows, After(StatusOf(im).head))
  {
    hide RowKey, RowEntries, BlockOf;
  }

  /** Erasing what lies beyond the head leaves the kept rows with exactly their entries. */
  lemma EraseBeyond(sc: Config, im: Image)
    requires Recoverable(sc, im)
    ensures im.entries - EntrySet(sc, Restrict(im.rows, From(im.rows, After(StatusOf(im).head)))) ==
      EntrySet(sc, Kept(im))
  {
    hide EntrySet, IsRow, BlockOf, Restrict;
    var gone := From(im.rows, After(StatusOf(im).head));
    KeptIsMinus(sc, im);
    EntriesMinus(sc, im.rows, gone);
  }

  lemma NoBlockZero(sc: Config, rows: Db)
    requires GoodRows(sc, rows)
    ensures ReceivedId(rows, 0) == None
  {
    hide RowKey, RowEntries, RowPrefix, BlockOf;
    BlockOfReceived(0);
  }

  lemma BlockOfReceived(block: u32)
    ensures BlockOf(ReceivedKey(block)) == block && TableOf(ReceivedKey(block)) == RECEIVED
  {
    ReadRowPrefix(block, RECEIVED, true, []);
    assert RowPrefix(block, RECEIVED, true) + [] == ReceivedKey(block);
  }

  lemma EndWriteAgain(sc: Config, s: Session)
    requires s.content == map[] && s.index == {} && Recoverable(sc, Now(s)) && s.st == StatusOf(Now(s))
    ensures EndWrite(s, true) == s.(log := s.log + [Now(s), Now(s).(status := Some(s.st))])
    ensures SameIdeal(sc, Now(s), Now(s).(status := Some(s.st)))
  {
    hide EntrySet, IsRow, BlockOf, ReceivedId;
    var im := Now(s);
    assert im.rows + map[] == im.rows && im.entries + {} == im.entries;
    assert im.(rows := im.rows, entries := im.entries) == im;
    assert Kept(im.(status := Some(s.st))) == Kept(im);
    IdealUnchanged(sc, im, im.(status := Some(s.st)));
  }

  lemma ErasedIsSame(sc: Config, im: Image)
    requires Recoverable(sc, im) && im.status.Some?
    ensures SameIdeal(sc, im, im.(entries := EntrySet(sc, Kept(im))))
    ensures SameIdeal(sc, im, Ideal(sc, im))
  {
    hide EntrySet, IsRow, BlockOf, ReceivedId;
    var a, b := im.(entries := EntrySet(sc, Kept(im))), Ideal(sc, im);
    EntriesMonotone(sc, Kept(im), im.rows);
    assert Kept(a) == Kept(im) && Kept(b) == Kept(im);
    KeptReceived(im);
    IdealUnchanged(sc, im, a);
    IdealUnchanged(sc, im, b);
  }

  lemma TruncateBeyond(sc: Config, s: Session)
    requires Recoverable(sc, Now(s)) && Now(s).status == Some(s.st)
    ensures var im := Now(s); var r := Truncate(sc, s, After(s.st.head));
      && r == s.(log := s.log + [im.(entries := EntrySet(sc, Kept(im))), Ideal(sc, im)])
      && SameIdeal(sc, im, im.(entries := EntrySet(sc, Kept(im)))) && SameIdeal(sc, im, Ideal(sc, im))
  {
    hide EntrySet, IsRow, BlockOf, Restrict, ReceivedId, Kept, From, GoodRows;
    var im := Now(s);
    EraseBeyond(sc, im);
    KeptIsMinus(sc, im);
    NoBlockZero(sc, im.rows);
    ErasedIsSame(sc, im);
  }

  lemma KeptReceived(im: Image)
    ensures ReceivedId(Kept(im), StatusOf(im).head) == ReceivedId(im.rows, StatusOf(im).head)
  {
    hide BlockOf, ReceivedKey;
    BlockOfReceived(StatusOf(im).head);
  }

  /** A restart gives exactly the image as of the stored status; so does one after a stop during the restart. */
  lemma RestartRestores(sc: Config, im: Image)
    requires Recoverable(sc, im)
    ensures Now(Open(sc, im)) == Ideal(sc, im)
    ensures Open(sc, im) == Session(Open(sc, im).log, map[], {}, StatusOf(im), true)
    ensures forall i :: 0 <= i < |Open(sc, im).log| ==> SameIdeal(sc, im, Open(sc, im).log[i])
  {
    hide EntrySet, IsRow, BlockOf, Restrict, ReceivedId, EndWrite, Truncate, Recoverable, Ideal;
    var s := Session([im], map[], {}, StatusOf(im), true);
    EndWriteAgain(sc, s);
    var s1 := EndWrite(s, true);
    TruncateBeyond(sc, s1);
    var s2 := Truncate(sc, s1, After(s1.st.head));
    IdealStatus(sc, Now(s1));
    IdealStatus(sc, im);
    EndWriteAgain(sc, s2);
    var d := Ideal(sc, im);
    assert d.(status := d.status) == d;
  }

  lemma IdealStatus(sc: Config, im: Image)
    ensures Ideal(sc, im).status == Some(StatusOf(im)) && StatusOf(Ideal(sc, im)) == StatusOf(im)
  {
  }
}
