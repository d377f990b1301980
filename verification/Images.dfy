/** The database as bytes, and what batches do to the image it holds. */
module Images {
  import opened Bytes
  import opened Store
  import opened KeyCodec
  import opened Tables
  import opened History

  // ---------- the fill status ----------

  const STATUS_KEY: Bytes := RowPrefix(0, FILL_STATUS, true)

  function StatusBytes(st: Status): (r: Bytes)
    ensures |r| == 76
  {
    LittleEndian(st.head, 4) + st.headId + LittleEndian(st.irreversible, 4) + st.irreversibleId +
      LittleEndian(st.first, 4)
  }

  function Number32(b: Bytes): u32
    requires |b| == 4
  {
    LittleBound(b);
    LittleNumber(b)
  }

  lemma LittleBound(b: Bytes)
    requires |b| == 4
    ensures LittleNumber(b) < 0x1_0000_0000
  {
    LittleNumberReverse(Reverse(b));
    ReverseReverse(b);
    NumberBound4(Reverse(b));
  }

  function ReadStatus(b: Bytes): Status
    requires |b| == 76
  {
    Status(Number32(b[..4]), b[4..36], Number32(b[36..40]), b[40..72], Number32(b[72..]))
  }

  lemma ReadLittle(n: u32)
    ensures Number32(LittleEndian(n, 4)) == n
  {
    ReverseLittleEndian(n, 4);
    LittleNumberReverse(Reverse(LittleEndian(n, 4)));
    ReverseReverse(LittleEndian(n, 4));
    Powers256();
    NumberBigEndian(n, 4);
  }

  /** The stored status is head, its id, the irreversible block, its id and the first block, and is read back as it was.
      */
  lemma StatusRoundTrip(st: Status)
    ensures ReadStatus(StatusBytes(st)) == st
    ensures var b := StatusBytes(st);
      && LittleNumber(b[..4]) == st.head && b[4..36] == st.headId
      && LittleNumber(b[36..40]) == st.irreversible && b[40..72] == st.irreversibleId
      && LittleNumber(b[72..]) == st.first
  {
    hide LittleEndian, Number32;
    var b := StatusBytes(st);
    ReadLittle(st.head);
    ReadLittle(st.irreversible);
    ReadLittle(st.first);
    NumberIs32(LittleEndian(st.head, 4));
    NumberIs32(LittleEndian(st.irreversible, 4));
    NumberIs32(LittleEndian(st.first, 4));
    assert b[..4] == LittleEndian(st.head, 4) && b[36..40] == LittleEndian(st.irreversible, 4);
    assert b[72..] == LittleEndian(st.first, 4) && b[4..36] == st.headId && b[40..72] == st.irreversibleId;
  }

  /** A received_block row is the block's number and id. */
  lemma ReceivedLayout(block: u32, id: Id)
    ensures var v := ReceivedValue(block, id); |v| == 36 && LittleNumber(v[..4]) == block && v[4..] == id
  {
    hide LittleEndian, Number32;
    ReadLittle(block);
    assert ReceivedValue(block, id)[..4] == LittleEndian(block, 4);
    NumberIs32(LittleEndian(block, 4));
  }

  lemma NumberIs32(b: Bytes)
    requires |b| == 4
    ensures Number32(b) == LittleNumber(b)
  {
  }

  // ---------- images ----------

  predicate IsRowKey(k: Bytes) { k != [] && k[0] == TABLE && k != STATUS_KEY }

  predicate IsEntryKey(k: Bytes) { k != [] && k[0] == INDEX }

  /** Keys have one of the two tags, entries no value, and the status its size. */
  predicate Shaped(db: Db)
  {
    && (forall k :: k in db ==> k != [] && (k[0] == TABLE || k[0] == INDEX))
    && (forall k :: k in db && IsEntryKey(k) ==> db[k] == [])
    && (STATUS_KEY in db ==> |db[STATUS_KEY]| == 76)
  }

  function ImageOf(db: Db): Image
  {
    Image(map k | k in db && IsRowKey(k) :: db[k],
          set k | k in db && IsEntryKey(k),
          if STATUS_KEY in db && |db[STATUS_KEY]| == 76 then Some(ReadStatus(db[STATUS_KEY])) else None)
  }

  predicate RowKeys(rows: Db) { forall k :: k in rows ==> IsRowKey(k) }

  predicate EntryPuts(entries: Db) { forall k :: k in entries ==> IsEntryKey(k) && entries[k] == [] }

  lemma StatusKeyForm()
    ensures STATUS_KEY != [] && STATUS_KEY[0] == TABLE && !IsEntryKey(STATUS_KEY) && BlockOf(STATUS_KEY) == 0
  {
    ReadRowPrefix(0, FILL_STATUS, true, []);
    assert RowPrefix(0, FILL_STATUS, true) + [] == STATUS_KEY;
  }

  lemma GoodRowKeys(sc: Schema, rows: Db)
    requires GoodRows(sc, rows)
    ensures RowKeys(rows)
  {
    hide Extract, Fill, RowEntries, BlockOf;
    StatusKeyForm();
    forall k | k in rows ensures IsRowKey(k) {
      GoodRowKey(sc, k, rows[k]);
    }
  }

  lemma GoodRowKey(sc: Schema, k: Bytes, v: Bytes)
    requires IsRow(sc, k, v)
    ensures k != [] && k[0] == TABLE
  {
    hide Extract, Fill, RowEntries, BlockOf, TableOf;
  }

  lemma PutRows(db: Db, rows: Db)
    requires Shaped(db) && RowKeys(rows)
    ensures Shaped(db + rows) && ImageOf(db + rows) == ImageOf(db).(rows := ImageOf(db).rows + rows)
  {
    hide STATUS_KEY, ReadStatus;
    StatusKeyForm();
  }

  lemma PutEntries(db: Db, entries: Db)
    requires Shaped(db) && EntryPuts(entries)
    ensures Shaped(db + entries) && ImageOf(db + entries) == ImageOf(db).(entries := ImageOf(db).entries + entries.Keys)
  {
    hide STATUS_KEY, ReadStatus;
    StatusKeyForm();
  }

  lemma PutStatus(db: Db, st: Status)
    requires Shaped(db)
    ensures Shaped(db[STATUS_KEY := StatusBytes(st)])
    ensures ImageOf(db[STATUS_KEY := StatusBytes(st)]) == ImageOf(db).(status := Some(st))
  {
    hide STATUS_KEY, ReadStatus;
    StatusKeyForm();
    StatusRoundTrip(st);
  }

  lemma DeleteRows(db: Db, keys: set<Bytes>)
    requires Shaped(db) && forall k :: k in keys ==> IsRowKey(k)
    ensures Shaped(db - keys) && ImageOf(db - keys) == ImageOf(db).(rows := ImageOf(db).rows - keys)
  {
    hide STATUS_KEY, ReadStatus;
    StatusKeyForm();
  }

  lemma DeleteEntries(db: Db, keys: set<Bytes>)
    requires Shaped(db) && forall k :: k in keys ==> IsEntryKey(k)
    ensures Shaped(db - keys) && ImageOf(db - keys) == ImageOf(db).(entries := ImageOf(db).entries - keys)
  {
    hide STATUS_KEY, ReadStatus;
    StatusKeyForm();
  }

  /** Nothing is in a database but its image. */
  lemma ImageIsAll(db: Db, db': Db)
    requires Shaped(db) && Shaped(db') && ImageOf(db).rows == ImageOf(db').rows &&
             ImageOf(db).entries == ImageOf(db').entries
    requires STATUS_KEY in db <==> STATUS_KEY in db'
    requires STATUS_KEY in db ==> db[STATUS_KEY] == db'[STATUS_KEY]
    ensures db == db'
  {
    hide STATUS_KEY;
    forall k ensures k in db <==> k in db' {
      assert k in db && IsRowKey(k) <==> k in ImageOf(db).rows;
      assert k in db' && IsRowKey(k) <==> k in ImageOf(db').rows;
      assert k in db && IsEntryKey(k) <==> k in ImageOf(db).entries;
      assert k in db' && IsEntryKey(k) <==> k in ImageOf(db').entries;
    }
    forall k | k in db ensures db[k] == db'[k] {
      if IsRowKey(k) {
        assert db[k] == ImageOf(db).rows[k] && db'[k] == ImageOf(db').rows[k];
      }
    }
  }

  // ---------- batches ----------

  predicate Puts(batch: seq<Op>) { forall i :: 0 <= i < |batch| ==> batch[i].Put? }

  /** A batch of puts as the map it adds. */
  function Added(batch: seq<Op>): Db { Apply(map[], batch) }

  lemma {:induction false} ApplyPuts(db: Db, batch: seq<Op>)
    requires Puts(batch)
    ensures Apply(db, batch) == db + Added(batch)
  {
    if batch != [] {
      ApplyPuts(db, batch[..|batch| - 1]);
    }
  }

  predicate Deletes(batch: seq<Op>) { forall i :: 0 <= i < |batch| ==> batch[i].Delete? }

  function Erased(batch: seq<Op>): set<Bytes>
    requires Deletes(batch)
  {
    set i | 0 <= i < |batch| :: batch[i].key
  }

  lemma {:induction false} ApplyDeletes(db: Db, batch: seq<Op>)
    requires Deletes(batch)
    ensures Apply(db, batch) == db - Erased(batch)
  {
    if batch != [] {
      var n := |batch| - 1;
      ApplyDeletes(db, batch[..n]);
      ErasedSnoc(batch[..n], batch[n]);
      assert batch == batch[..n] + [batch[n]];
    }
  }

  lemma ErasedSnoc(batch: seq<Op>, op: Op)
    requires Deletes(batch) && op.Delete?
    ensures Erased(batch + [op]) == Erased(batch) + {op.key}
  {
    forall k | k in Erased(batch) ensures k in Erased(batch + [op]) {
      var i :| 0 <= i < |batch| && batch[i].key == k;
      assert (batch + [op])[i].key == k;
    }
    assert (batch + [op])[|batch|] == op;
    forall k | k in Erased(batch + [op]) ensures k in Erased(batch) + {op.key} {
      var i :| 0 <= i < |batch + [op]| && (batch + [op])[i].key == k;
      if i < |batch| { assert batch[i].key == k; }
    }
  }
}
