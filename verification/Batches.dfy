/** Batches as the filler makes them: for new rows, and for rows to remove. */
module Batches {
  import opened Bytes
  import opened Store
  import opened KeyCodec
  import opened Tables
  import opened History
  import opened Images
  import opened Scans

  // ---------- batches ----------

  function PutsOf(xs: seq<Bytes>): (r: seq<Op>)
    ensures |r| == |xs|
  {
    seq(|xs|, i requires 0 <= i < |xs| => Put(xs[i], []))
  }

  function DeletesOf(xs: seq<Bytes>): (r: seq<Op>)
    ensures |r| == |xs| && Deletes(r)
  {
    seq(|xs|, i requires 0 <= i < |xs| => Delete(xs[i]))
  }

  function SetOf(xs: seq<Bytes>): set<Bytes>
  {
    set x | x in xs
  }

  lemma {:induction false} AddPuts(batch: seq<Op>, xs: seq<Bytes>)
    ensures Added(batch + PutsOf(xs)).Keys == Added(batch).Keys + SetOf(xs)
    ensures forall k :: k in Added(batch + PutsOf(xs)) ==>
              if k in xs then Added(batch + PutsOf(xs))[k] == []
              else k in Added(batch) && Added(batch + PutsOf(xs))[k] == Added(batch)[k]
  {
    if xs == [] {
      assert batch + PutsOf(xs) == batch;
    } else {
      var init, x := xs[..|xs| - 1], xs[|xs| - 1];
      AddPuts(batch, init);
      assert batch + PutsOf(xs) == (batch + PutsOf(init)) + [Put(x, [])];
      ApplySnoc(map[], batch + PutsOf(init), Put(x, []));
      assert xs == init + [x];
    }
  }

  lemma ErasedConcat(a: seq<Op>, b: seq<Op>)
    requires Deletes(a) && Deletes(b)
    ensures Deletes(a + b) && Erased(a + b) == Erased(a) + Erased(b)
  {
    forall k | k in Erased(a) + Erased(b) ensures k in Erased(a + b) {
      if k in Erased(a) {
        var i :| 0 <= i < |a| && a[i].key == k;
        assert (a + b)[i].key == k;
      } else {
        var i :| 0 <= i < |b| && b[i].key == k;
        assert (a + b)[|a| + i].key == k;
      }
    }
    forall k | k in Erased(a + b) ensures k in Erased(a) + Erased(b) {
      var i :| 0 <= i < |a + b| && (a + b)[i].key == k;
      if i < |a| { assert a[i].key == k; } else { assert b[i - |a|].key == k; }
    }
  }

  lemma ErasedDeletes(xs: seq<Bytes>)
    ensures Erased(DeletesOf(xs)) == SetOf(xs)
  {
    var d := DeletesOf(xs);
    forall k | k in xs ensures k in Erased(d) {
      var i :| 0 <= i < |xs| && xs[i] == k;
      assert d[i].key == k;
    }
  }

  /** What a put-only pair of batches, the second perhaps with the status, makes of the image. */
  lemma WrittenImages(sc: Config, db: Db, content: seq<Op>, index: seq<Op>, st: Status)
    requires Shaped(db) && Puts(content) && Puts(index) && EntryPuts(Added(index))
    requires GoodRows(sc, ImageOf(db).rows) && GoodRows(sc, Added(content))
    ensures GoodRows(sc, ImageOf(db).rows + Added(content))
    ensures var d1 := Apply(db, content); var d2 := Apply(d1, index);
      var d3 := Apply(d1, index + [Put(STATUS_KEY, StatusBytes(st))]);
      && Shaped(d1) && Shaped(d2) && Shaped(d3)
      && ImageOf(d1) == ImageOf(db).(rows := ImageOf(db).rows + Added(content))
      && ImageOf(d2) == ImageOf(d1).(entries := ImageOf(d1).entries + Added(index).Keys)
      && ImageOf(d3) == ImageOf(d2).(status := Some(st))
  {
    hide ImageOf, STATUS_KEY, StatusBytes, Shaped, RowKeys, EntryPuts, Added, IsRow;
    GoodRowKeys(sc, Added(content));
    ApplyPuts(db, content);
    PutRows(db, Added(content));
    var d1 := Apply(db, content);
    ApplyPuts(d1, index);
    PutEntries(d1, Added(index));
    ApplySnoc(d1, index, Put(STATUS_KEY, StatusBytes(st)));
    PutStatus(Apply(d1, index), st);
  }

  // ---------- the entries of one row ----------

  /** The index loop of add_row and remove_row. */
  method IndexKeys(t: Table, name: Name, block: u32, present: bool, v: Bytes,
          pos: Positions) returns (r: Option<seq<Bytes>>)
    requires forall i :: 0 <= i < |t.indexes| ==> Known(t.fields, t.indexes[i].sortKeys)
    ensures r == EntryKeys(t, name, t.indexes, block, present, v, pos)
  {
    var xs := [];
    var i := 0;
    while i < |t.indexes|
      invariant i <= |t.indexes|
      invariant EntryKeys(t, name, t.indexes[..i], block, present, v, pos) == Some(xs)
    {
      assert t.indexes[..i + 1][..i] == t.indexes[..i];
      var ix := t.indexes[i];
      var key := ExtractKeys(IndexPrefix(name, ix.name), t.fields, ix.sortKeys, v, pos);
      if key.None? {
        MissingKeys(t, name, t.indexes, i, block, present, v, pos);
        return None;
      }
      xs := xs + [key.value + IndexSuffix(block, present)];
      i := i + 1;
    }
    assert t.indexes[..i] == t.indexes;
    r := Some(xs);
  }

  lemma {:induction false} MissingKeys(t: Table, name: Name, ixs: seq<Index>, i: nat, block: u32, present: bool,
          v: Bytes, pos: Positions)
    requires i < |ixs| && forall j :: 0 <= j < |ixs| ==> Known(t.fields, ixs[j].sortKeys)
    requires Extract(t.fields, ixs[i].sortKeys, v, pos).None?
    ensures EntryKeys(t, name, ixs, block, present, v, pos).None?
  {
    if i < |ixs| - 1 {
      MissingKeys(t, name, ixs[..|ixs| - 1], i, block, present, v, pos);
    }
  }

  /** remove_row: what to delete for a row, entries and row; None when the row cannot be read. */
  method RemoveRow(sc: Config, k: Bytes, v: Bytes) returns (r: Option<(seq<Op>, Op)>)
    ensures r.None? <==> |k| < 14 || RowEntries(sc, BlockOf(k), TableOf(k), PresentOf(k), v).None?
    ensures r.Some? ==> r.value == (DeletesOf(EntriesOf(sc, k, v)), Delete(k))
  {
    if |k| < 14 || TableOf(k) !in sc {
      return None;
    }
    var t := sc[TableOf(k)];
    var found := FillPositions(t.fields, AllIds(|t.fields|), v, 0);
    if found.None? {
      return None;
    }
    var xs := IndexKeys(t, TableOf(k), BlockOf(k), PresentOf(k), v, found.value.1);
    if xs.None? {
      return None;
    }
    r := Some((DeletesOf(xs.value), Delete(k)));
  }

  /** remove_row for each of the rows: their deletions and those of their entries. */
  method RemoveRows(sc: Config, db: Db, ks: seq<Bytes>) returns (content: seq<Op>, index: seq<Op>)
    requires GoodRows(sc, ImageOf(db).rows)
    requires forall k :: k in ks ==> k in db && k in ImageOf(db).rows && ImageOf(db).rows[k] == db[k]
    ensures Deletes(content) && Erased(content) == SetOf(ks)
    ensures Deletes(index) && Erased(index) == EntrySet(sc, Restrict(ImageOf(db).rows, SetOf(ks)))
  {
    hide ImageOf, GoodRows, EntrySet, EntriesOf, Restrict;
    ghost var rows := ImageOf(db).rows;
    content, index := [], [];
    var i := 0;
    NothingErased(sc, rows);
    while i < |ks|
      invariant i <= |ks| && Deletes(content) && Deletes(index)
      invariant Erased(content) == SetOf(ks[..i]) && Erased(index) == EntrySet(sc, Restrict(rows, SetOf(ks[..i])))
    {
      GoodRow(sc, rows, ks[i]);
      var r := RemoveRow(sc, ks[i], db[ks[i]]);
      EraseRow(sc, rows, content, index, ks, i);
      content, index := content + [r.value.1], index + r.value.0;
      i := i + 1;
    }
    assert ks[..i] == ks;
  }

  lemma ReceivedLookup(db: Db, block: u32)
    ensures ReceivedId(ImageOf(db).rows, block)
         == if ReceivedKey(block) in db && 36 <= |db[ReceivedKey(block)]| then Some(db[ReceivedKey(block)][4..36])
            else None
  {
    hide IsRowKey, ReceivedKey, ReadStatus, STATUS_KEY;
    ReceivedIsRowKey(block);
  }

  lemma ReceivedIsRowKey(block: u32)
    ensures IsRowKey(ReceivedKey(block))
  {
    hide RowPrefix;
    ReadRowPrefix(block, RECEIVED, true, []);
    ReadRowPrefix(0, FILL_STATUS, true, []);
    assert RowPrefix(block, RECEIVED, true) + [] == ReceivedKey(block);
    assert RowPrefix(0, FILL_STATUS, true) + [] == STATUS_KEY;
  }

  lemma RowsInScan(sc: Config, db: Db, block: u32, ks: seq<Bytes>)
    requires Shaped(db) && GoodRows(sc, ImageOf(db).rows) && 1 <= block
    requires forall k :: k in ks <==> k in db && InRange(k, TableFrom(block), [TABLE])
    ensures SetOf(ks) == From(ImageOf(db).rows, block) <= ImageOf(db).rows.Keys
    ensures forall k :: k in ks ==> k in db && k in ImageOf(db).rows && ImageOf(db).rows[k] == db[k]
  {
    hide RowKey, RowEntries, BlockOf, InRange, TableFrom, ReadStatus, STATUS_KEY;
    var rows := ImageOf(db).rows;
    StatusKeyForm();
    forall k | k in db
      ensures InRange(k, TableFrom(block), [TABLE]) <==> k in From(rows, block)
    {
      if IsEntryKey(k) {
        EntriesPast(k, block, block);
      } else {
        if k == STATUS_KEY { StatusKeyLength(); }
        assert k in rows || k == STATUS_KEY;
        InBlocks(k, block, block);
      }
    }
  }

  lemma StatusKeyLength()
    ensures |STATUS_KEY| == 14
  {
  }

  lemma NothingErased(sc: Config, rows: Db)
    ensures Deletes([]) && Erased([]) == SetOf([]) == {} && EntrySet(sc, Restrict(rows, {})) == {}
  {
  }

  lemma GoodRow(sc: Config, rows: Db, k: Bytes)
    requires GoodRows(sc, rows) && k in rows
    ensures 14 <= |k| && RowEntries(sc, BlockOf(k), TableOf(k), PresentOf(k), rows[k]).Some?
    ensures RowEntries(sc, BlockOf(k), TableOf(k), PresentOf(k), rows[k]).value == EntriesOf(sc, k, rows[k])
  {
    hide RowKey, RowEntries, BlockOf, TableOf, PresentOf;
  }

  lemma EntriesOfMore(sc: Config, rows: Db, keys: set<Bytes>, k: Bytes)
    requires k in rows
    ensures EntrySet(sc, Restrict(rows, keys + {k})) ==
      EntrySet(sc, Restrict(rows, keys)) + SetOf(EntriesOf(sc, k, rows[k]))
  {
    hide EntriesOf;
    var a, b := Restrict(rows, keys), Restrict(rows, keys + {k});
    assert k in b && b[k] == rows[k];
    assert forall u :: u in a ==> u in b && a[u] == b[u];
    assert forall u :: u in b ==> u == k || (u in a && a[u] == b[u]);
  }

  lemma EraseRow(sc: Config, rows: Db, content: seq<Op>, index: seq<Op>, ks: seq<Bytes>, i: nat)
    requires i < |ks| && ks[i] in rows && Deletes(content) && Deletes(index)
    requires Erased(content) == SetOf(ks[..i]) && Erased(index) == EntrySet(sc, Restrict(rows, SetOf(ks[..i])))
    ensures var xs := EntriesOf(sc, ks[i], rows[ks[i]]);
      && Deletes(content + [Delete(ks[i])]) && Erased(content + [Delete(ks[i])]) == SetOf(ks[..i + 1])
      && Deletes(index + DeletesOf(xs))
      && Erased(index + DeletesOf(xs)) == EntrySet(sc, Restrict(rows, SetOf(ks[..i + 1])))
  {
    hide EntrySet, EntriesOf, Restrict, Erased;
    var xs := EntriesOf(sc, ks[i], rows[ks[i]]);
    ErasedSnoc(content, Delete(ks[i]));
    ErasedDeletes(xs);
    ErasedConcat(index, DeletesOf(xs));
    EntriesOfMore(sc, rows, SetOf(ks[..i]), ks[i]);
    assert ks[..i + 1] == ks[..i] + [ks[i]];
    assert SetOf(ks[..i + 1]) == SetOf(ks[..i]) + {ks[i]};
  }

  lemma EntryKeysOnly(sc: Config, rows: Db)
    requires GoodRows(sc, rows)
    ensures forall x :: x in EntrySet(sc, rows) ==> IsEntryKey(x)
  {
    hide IsRow, EntriesOf;
    forall x | x in EntrySet(sc, rows) ensures IsEntryKey(x) {
      var k :| k in rows && x in EntriesOf(sc, k, rows[k]);
      EntryFindsRow(sc, k, rows[k], x);
    }
  }

  /** Entries erased first, then rows. */
  lemma ErasedImages(sc: Config, db: Db, index: seq<Op>, content: seq<Op>, gone: set<Bytes>)
    requires Shaped(db) && GoodRows(sc, ImageOf(db).rows) && Deletes(index) && Deletes(content)
    requires Erased(index) == EntrySet(sc, Restrict(ImageOf(db).rows, gone)) && Erased(content) == gone &&
             gone <= ImageOf(db).rows.Keys
    ensures var d1 := Apply(db, index); var d2 := Apply(d1, content);
      && Shaped(d1) && Shaped(d2)
      && ImageOf(d1) == ImageOf(db).(entries := ImageOf(db).entries - EntrySet(sc, Restrict(ImageOf(db).rows, gone)))
      && ImageOf(d2) == ImageOf(d1).(rows := ImageOf(db).rows - gone)
      && GoodRows(sc, ImageOf(db).rows - gone)
  {
    hide ImageOf, Shaped, EntrySet, Erased, IsRow, STATUS_KEY;
    var rows := ImageOf(db).rows;
    assert GoodRows(sc, Restrict(rows, gone));
    EntryKeysOnly(sc, Restrict(rows, gone));
    GoodRowKeys(sc, rows);
    ApplyDeletes(db, index);
    DeleteEntries(db, Erased(index));
    ApplyDeletes(Apply(db, index), content);
    DeleteRows(Apply(db, index), gone);
  }

  lemma RowAdded(sc: Config, content: seq<Op>, index: seq<Op>, name: Name, num: u32, present: bool, v: Bytes)
    requires RowKey(sc, num, name, present, v).Some? && RowEntries(sc, num, name, present, v).Some? && 1 <= num
    requires Puts(content) && GoodRows(sc, Added(content)) && Puts(index) && EntryPuts(Added(index))
    ensures var k := RowKey(sc, num, name, present, v).value; var xs := RowEntries(sc, num, name, present, v).value;
      && Puts(content + [Put(k, v)]) && Added(content + [Put(k, v)]) == Added(content)[k := v]
      && GoodRows(sc, Added(content)[k := v])
      && Puts(index + PutsOf(xs)) && Added(index + PutsOf(xs)).Keys == Added(index).Keys + (set x | x in xs)
      && EntryPuts(Added(index + PutsOf(xs)))
  {
    hide RowKey, RowEntries, IsRow, EntriesOf, BlockOf, Apply;
    var k, xs := RowKey(sc, num, name, present, v).value, RowEntries(sc, num, name, present, v).value;
    AddedRow(sc, num, name, present, v);
    ApplySnoc(map[], content, Put(k, v));
    AddPuts(index, xs);
    forall x | x in xs ensures IsEntryKey(x) {
      EntryFindsRow(sc, k, v, x);
    }
  }

  lemma NothingAdded(sc: Config)
    ensures Puts([]) && Added([]) == map[] && EntryPuts(Added([])) && GoodRows(sc, Added([]))
  {
  }
}
