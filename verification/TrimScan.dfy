/** How trim finds the rows to remove: a scan of the rows by block, then of the index entries of each group. */
module TrimScan {
  import opened Bytes
  import opened Store
  import opened KeyCodec
  import opened Tables
  import opened Trimming
  import opened History
  import opened Images
  import opened Scans
  import opened Batches

  /** The batch removes the rows of gone and their entries, and nothing else. */
  ghost predicate Removes(sc: Config, rows: Db, batch: seq<Op>, gone: set<Bytes>)
  {
    gone <= rows.Keys && Deletes(batch) && Erased(batch) == gone + EntrySet(sc, Restrict(rows, gone))
  }

  lemma RemovesNothing(sc: Config, rows: Db)
    ensures Removes(sc, rows, [], {})
  {
    NothingErased(sc, rows);
  }

  lemma RemovesOne(sc: Config, rows: Db, batch: seq<Op>, gone: set<Bytes>, k: Bytes)
    requires Removes(sc, rows, batch, gone) && k in rows
    ensures Removes(sc, rows, batch + DeletesOf(EntriesOf(sc, k, rows[k])) + [Delete(k)], gone + {k})
  {
    hide EntrySet, EntriesOf, Restrict, Erased, Deletes;
    var xs := EntriesOf(sc, k, rows[k]);
    ErasedDeletes(xs);
    ErasedConcat(batch, DeletesOf(xs));
    OneDelete(batch + DeletesOf(xs), k);
    EntriesOfMore(sc, rows, gone, k);
  }

  lemma OneDelete(batch: seq<Op>, k: Bytes)
    requires Deletes(batch)
    ensures Deletes(batch + [Delete(k)]) && Erased(batch + [Delete(k)]) == Erased(batch) + {k}
  {
    ErasedSnoc(batch, Delete(k));
  }

  // ---------- the rows of blocks first to end ----------

  /** Rows of tables with no trim index, before the end. */
  predicate Plain(sc: Schema, first: u32, end: u32, k: Bytes)
  {
    14 <= |k| && TrimIndexOf(sc, k).None? && first <= BlockOf(k) < end
  }

  predicate Changed(sc: Schema, rows: Db, first: u32, end: u32, k: Bytes, g: Bytes)
  {
    k in rows && 14 <= |k| && TrimGroup(sc, k, rows[k]) == Some(g) && first < BlockOf(k) <= end
  }

  lemma TrimGroupOfRow(sc: Config, k: Bytes, v: Bytes)
    requires IsRow(sc, k, v) && TrimIndexOf(sc, k).Some?
    ensures TrimGroup(sc, k, v).Some? && Group(sc, k, v, TrimIndexOf(sc, k).value).Some?
    ensures TrimIndexOf(sc, k).value in sc[TableOf(k)].indexes
  {
    hide Group, IsRow, EntriesOf;
    EntryCount(sc, k, v);
    var ix := TrimIndexOf(sc, k).value;
    var i :| 0 <= i < |sc[TableOf(k)].indexes| && sc[TableOf(k)].indexes[i] == ix;
    EntryForm(sc, k, v, i);
  }

  /** The key that trim puts into trim_keys for a row. */
  method TrimKey(sc: Config, k: Bytes, v: Bytes) returns (g: Bytes)
    requires IsRow(sc, k, v) && TrimIndexOf(sc, k).Some?
    ensures TrimGroup(sc, k, v) == Some(g)
  {
    hide Extract, Fill, IsRow, AllIds, IndexPrefix;
    TrimGroupOfRow(sc, k, v);
    var t, ix := sc[TableOf(k)], TrimIndexOf(sc, k).value;
    var found := FillPositions(t.fields, AllIds(|t.fields|), v, 0);
    var key := ExtractKeys(IndexPrefix(TableOf(k), ix.name), t.fields, ix.sortKeys, v, found.value.1);
    g := key.value;
  }

  /** The first loop of trim. */
  method SelectRows(sc: Config, db: Db, ks: seq<Bytes>, first: u32, end: u32) returns (batch: seq<Op>,
          groups: set<Bytes>, ghost gone: set<Bytes>)
    requires GoodRows(sc, ImageOf(db).rows)
    requires forall k :: k in ks ==>
      k in db && k in ImageOf(db).rows && ImageOf(db).rows[k] == db[k] && first <= BlockOf(k) <= end
    ensures Removes(sc, ImageOf(db).rows, batch, gone)
    ensures forall k :: k in gone <==> k in ks && Plain(sc, first, end, k)
    ensures forall g :: g in groups <==> exists k :: k in ks && Changed(sc, ImageOf(db).rows, first, end, k, g)
  {
    hide ImageOf, IsRow, EntriesOf, TrimGroup, TrimIndexOf, BlockOf, Removes;
    ghost var rows := ImageOf(db).rows;
    batch, groups, gone := [], {}, {};
    RemovesNothing(sc, rows);
    var i := 0;
    while i < |ks|
      invariant i <= |ks| && Removes(sc, rows, batch, gone)
      invariant forall k :: k in gone <==> k in ks[..i] && Plain(sc, first, end, k)
      invariant forall g :: g in groups ==> exists k :: k in ks[..i] && Changed(sc, rows, first, end, k, g)
      invariant forall k, g :: k in ks[..i] && Changed(sc, rows, first, end, k, g) ==> g in groups
    {
      var k := ks[i];
      assert ks[..i + 1] == ks[..i] + [k];
      GoodRow(sc, rows, k);
      if TrimIndexOf(sc, k).Some? {
        if BlockOf(k) > first {
          var g := TrimKey(sc, k, db[k]);
          groups := groups + {g};
          assert Changed(sc, rows, first, end, k, g);
        }
      } else {
        NoTrimGroup(sc, k, rows[k]);
        if BlockOf(k) < end {
          var r := RemoveRow(sc, k, db[k]);
          RemovesOne(sc, rows, batch, gone, k);
          batch, gone := batch + r.value.0 + [r.value.1], gone + {k};
        }
      }
      i := i + 1;
    }
    assert ks[..i] == ks;
  }

  lemma NoTrimGroup(sc: Config, k: Bytes, v: Bytes)
    requires TrimIndexOf(sc, k).None?
    ensures TrimGroup(sc, k, v) == None
  {
  }

  // ---------- one group ----------

  /** es are the entries that have prefix g, in order. */
  ghost predicate ScanOf(entries: set<Bytes>, g: Bytes, es: seq<Bytes>)
  {
    Sorted(es) && forall x :: x in es <==> x in entries && |g| <= |x| && x[..|g|] == g
  }

  lemma {:induction false} LongEnough(x: Bytes, g: Bytes)
    requires AtMost(g, x) && !Past(x, g)
    ensures |g| <= |x|
  {
    if g != [] && x != g {
      LongerStaysWithin(x, g);
    }
  }

  lemma {:induction false} LongerStaysWithin(x: Bytes, g: Bytes)
    requires Less(g, x) && !Past(x, g)
    ensures |g| <= |x|
  {
    if g != [] {
      LongerStaysWithin(x[1..], g[1..]);
    }
  }

  lemma ScanFinds(db: Db, g: Bytes, es: seq<Bytes>)
    requires Shaped(db) && g != [] && g[0] == INDEX
    requires Sorted(es) && forall x :: x in es <==> x in db && InRange(x, g, g)
    ensures ScanOf(ImageOf(db).entries, g, es)
  {
    hide Less, Past, ReadStatus, STATUS_KEY;
    forall x | x in db
      ensures x in es <==> x in ImageOf(db).entries && |g| <= |x| && x[..|g|] == g
    {
      if InRange(x, g, g) {
        LongEnough(x, g);
        SamePrefix(x, g);
        assert x[0] == x[..|g|][0];
      } else if |g| <= |x| {
        SamePrefix(x, g);
      }
    }
  }

  /** The trim index of a table, and a group of it. */
  predicate IsTrimGroup(sc: Schema, name: Name, ix: Index, g: Bytes)
  {
    IsGroup(sc, name, ix, g) && sc[name].trimIndex == Some(ix)
  }

  function RowAt(sc: Schema, es: seq<Bytes>, i: nat): (r: Bytes)
    requires i < |es|
  {
    if PkOf(sc, es[i]).Some? then PkOf(sc, es[i]).value else []
  }

  /** Row i of the scan is a row of the group, and es[i] its entry. */
  lemma ScannedRow(sc: Config, rows: Db, name: Name, ix: Index, g: Bytes, es: seq<Bytes>, i: nat)
    requires GoodRows(sc, rows) && IsTrimGroup(sc, name, ix, g) && ScanOf(EntrySet(sc, rows), g, es) && i < |es|
    ensures ExtractPk(sc[name], name, ix.sortKeys, es[i]) == Some(RowAt(sc, es, i))
    ensures RowAt(sc, es, i) in rows && EntryFor(sc, rows, ix, es[i], RowAt(sc, es, i))
    ensures Group(sc, RowAt(sc, es, i), rows[RowAt(sc, es, i)], ix) == Some(g)
    ensures 14 <= |RowAt(sc, es, i)| && TrimGroup(sc, RowAt(sc, es, i), rows[RowAt(sc, es, i)]) == Some(g)
  {
    hide PkOf, ExtractPk, Group, IsGroup, EntrySet, TableOf;
    assert es[i] in es;
    GroupEntry(sc, rows, name, ix, g, es[i]);
  }

  /** Later rows of the scan are older. */
  lemma ScanIsNewestFirst(sc: Config, rows: Db, name: Name, ix: Index, g: Bytes, es: seq<Bytes>, i: nat, j: nat)
    requires GoodRows(sc, rows) && IsTrimGroup(sc, name, ix, g) && ScanOf(EntrySet(sc, rows), g, es) && i < j < |es|
    ensures NewerRow(RowAt(sc, es, i), RowAt(sc, es, j))
  {
    hide PkOf, ExtractPk, Group, EntryFor, NewerRow, RowAt, IsTrimGroup, EntrySet, TrimGroup, Less;
    ScannedRow(sc, rows, name, ix, g, es, i);
    ScannedRow(sc, rows, name, ix, g, es, j);
    GroupOrder(sc, rows, ix, g, es[i], RowAt(sc, es, i), es[j], RowAt(sc, es, j));
  }

  /** Every row of the group is in the scan. */
  lemma RowIsScanned(sc: Config, rows: Db, name: Name, ix: Index, g: Bytes, es: seq<Bytes>, u: Bytes)
    requires GoodRows(sc, rows) && IsTrimGroup(sc, name, ix, g) && ScanOf(EntrySet(sc, rows), g, es)
    requires u in rows && TrimGroup(sc, u, rows[u]) == Some(g)
    ensures exists i :: 0 <= i < |es| && RowAt(sc, es, i) == u
  {
    hide PkOf, ExtractPk, Group, IsGroup, EntrySet, IndexSuffix, EntryTable, TableOf, BlockOf, PresentOf, EntryIndex;
    var ix' := TrimIndexOf(sc, u).value;
    GroupNames(sc, u, rows[u], ix', g);
    NamesOf(sc, name, ix, g, g);
    RowInGroupHasEntry(sc, rows, name, ix, g, u);
    var x := g + IndexSuffix(BlockOf(u), PresentOf(u));
    assert x[..|g|] == g;
    var i :| 0 <= i < |es| && es[i] == x;
    assert RowAt(sc, es, i) == u;
  }

  lemma OlderNotLater(a: Bytes, b: Bytes)
    ensures NewerRow(a, b) ==> BlockOf(b) <= BlockOf(a) && !NewerRow(b, a)
    ensures !NewerRow(a, a)
  {
    hide BlockOf, PresentOf;
  }

  /** If row i of the scan is newer than row j, then it is at or before the row just before j. */
  lemma PreviousCounts(sc: Config, rows: Db, name: Name, ix: Index, g: Bytes, es: seq<Bytes>, i: nat, j: nat)
    requires GoodRows(sc, rows) && IsTrimGroup(sc, name, ix, g) && ScanOf(EntrySet(sc, rows), g, es) && i < |es| &&
             j < |es|
    requires NewerRow(RowAt(sc, es, i), RowAt(sc, es, j))
    ensures i < j && 14 <= |RowAt(sc, es, i)| && 14 <= |RowAt(sc, es, j - 1)|
    ensures BlockOf(RowAt(sc, es, j - 1)) <= BlockOf(RowAt(sc, es, i))
  {
    hide *;
    OlderNotLater(RowAt(sc, es, i), RowAt(sc, es, j));
    if i > j {
      ScanIsNewestFirst(sc, rows, name, ix, g, es, j, i);
    }
    assert i < j;
    ScannedRow(sc, rows, name, ix, g, es, i);
    ScannedRow(sc, rows, name, ix, g, es, j - 1);
    if i < j - 1 {
      ScanIsNewestFirst(sc, rows, name, ix, g, es, i, j - 1);
      OlderNotLater(RowAt(sc, es, i), RowAt(sc, es, j - 1));
    }
  }

  /** A row of the scan is superseded exactly when the row before it is not after the end. */
  lemma SupersededByPrevious(sc: Config, rows: Db, name: Name, ix: Index, g: Bytes, es: seq<Bytes>, end: u32, j: nat)
    requires GoodRows(sc, rows) && IsTrimGroup(sc, name, ix, g) && ScanOf(EntrySet(sc, rows), g, es) && j < |es|
    ensures RowAt(sc, es, j) in rows && 14 <= |RowAt(sc, es, j)|
    ensures Superseded(sc, rows, end, RowAt(sc, es, j)) <==>
              j > 0 && 14 <= |RowAt(sc, es, j - 1)| && BlockOf(RowAt(sc, es, j - 1)) <= end
  {
    hide GoodRows, IsTrimGroup, EntrySet, TrimGroup, RowAt, ScanOf, BlockOf, PresentOf, Group, EntryFor, ExtractPk;
    ScannedRow(sc, rows, name, ix, g, es, j);
    var k := RowAt(sc, es, j);
    if j > 0 {
      ScannedRow(sc, rows, name, ix, g, es, j - 1);
      ScanIsNewestFirst(sc, rows, name, ix, g, es, j - 1, j);
    }
    if Superseded(sc, rows, end, k) {
      var u :| u in rows && NewerRow(u, k) && TrimGroup(sc, u, rows[u]) == TrimGroup(sc, k, rows[k])
        && BlockOf(u) <= end;
      RowIsScanned(sc, rows, name, ix, g, es, u);
      var i :| 0 <= i < |es| && RowAt(sc, es, i) == u;
      PreviousCounts(sc, rows, name, ix, g, es, i, j);
    }
  }

  /** The rows of group g that a trim removes. */
  ghost function SupersededIn(sc: Config, rows: Db, end: u32, g: Bytes): set<Bytes>
  {
    set k | k in rows && TrimGroup(sc, k, rows[k]) == Some(g) && Superseded(sc, rows, end, k)
  }

  /** The rows of the first j of the scan that come after a row up to the end. */
  ghost function Taken(sc: Config, es: seq<Bytes>, end: u32, j: nat): set<Bytes>
    requires j <= |es|
  {
    set i | 0 <= i < j && AfterOne(sc, es, end, i) :: RowAt(sc, es, i)
  }

  predicate AfterOne(sc: Schema, es: seq<Bytes>, end: u32, i: int)
  {
    0 < i < |es| && 14 <= |RowAt(sc, es, i - 1)| && BlockOf(RowAt(sc, es, i - 1)) <= end
  }

  lemma TakenIsSuperseded(sc: Config, rows: Db, name: Name, ix: Index, g: Bytes, es: seq<Bytes>, end: u32)
    requires GoodRows(sc, rows) && IsTrimGroup(sc, name, ix, g) && ScanOf(EntrySet(sc, rows), g, es)
    ensures Taken(sc, es, end, |es|) == SupersededIn(sc, rows, end, g)
  {
    hide GoodRows, IsTrimGroup, EntrySet, TrimGroup, RowAt, ScanOf, BlockOf, Group, EntryFor, ExtractPk, Superseded;
    forall k | k in Taken(sc, es, end, |es|) ensures k in SupersededIn(sc, rows, end, g) {
      var i :| 0 <= i < |es| && AfterOne(sc, es, end, i) && RowAt(sc, es, i) == k;
      SupersededByPrevious(sc, rows, name, ix, g, es, end, i);
      ScannedRow(sc, rows, name, ix, g, es, i);
    }
    forall k | k in SupersededIn(sc, rows, end, g) ensures k in Taken(sc, es, end, |es|) {
      RowIsScanned(sc, rows, name, ix, g, es, k);
      var i :| 0 <= i < |es| && RowAt(sc, es, i) == k;
      SupersededByPrevious(sc, rows, name, ix, g, es, end, i);
      assert AfterOne(sc, es, end, i);
    }
  }

  lemma TakenNext(sc: Config, es: seq<Bytes>, end: u32, j: nat)
    requires j < |es|
    ensures Taken(sc, es, end, j + 1) == Taken(sc, es, end, j)
              + if AfterOne(sc, es, end, j) then {RowAt(sc, es, j)} else {}
  {
    hide RowAt, AfterOne;
  }

  /** The second loop of trim, for one group: from the newest entry on, remove what comes after a row up to the end. */
  method TrimOne(sc: Config, db: Db, name: Name, ix: Index, g: Bytes, end: u32, batch: seq<Op>, ghost gone: set<Bytes>)
    returns (batch': seq<Op>)
    requires Shaped(db) && GoodRows(sc, ImageOf(db).rows) && ImageOf(db).entries == EntrySet(sc, ImageOf(db).rows)
    requires IsTrimGroup(sc, name, ix, g) && end < 0xffff_ffff && Removes(sc, ImageOf(db).rows, batch, gone)
    ensures Removes(sc, ImageOf(db).rows, batch', gone + SupersededIn(sc, ImageOf(db).rows, end, g))
  {
    hide ImageOf, Shaped, GoodRows, Removes, RowAt, BlockOf, PresentOf, Taken, SupersededIn, EntryFor, Group,
         ExtractPk, EntrySet, EntriesOf, InRange, ScanOf;
    ghost var rows := ImageOf(db).rows;
    var es := ForEach(db, g, g);
    GroupTag(sc, name, ix, g);
    ScanFinds(db, g, es);
    batch' := batch;
    var prev: u32 := 0xffff_ffff;
    var j := 0;
    NothingTaken(sc, es, end);
    assert gone + {} == gone;
    while j < |es|
      invariant j <= |es| && Removes(sc, rows, batch', gone + Taken(sc, es, end, j))
      invariant j == 0 ==> prev == 0xffff_ffff
      invariant j > 0 ==> 14 <= |RowAt(sc, es, j - 1)| && prev == BlockOf(RowAt(sc, es, j - 1))
    {
      var k := ScanRow(sc, db, name, ix, g, es, j);
      TakenNext(sc, es, end, j);
      if prev <= end {
        var r := RemoveRow(sc, k, db[k]);
        GoodRow(sc, rows, k);
        RemovesOne(sc, rows, batch', gone + Taken(sc, es, end, j), k);
        assert gone + Taken(sc, es, end, j) + {k} == gone + (Taken(sc, es, end, j) + {k});
        batch' := batch' + r.value.0 + [r.value.1];
      } else {
        assert gone + (Taken(sc, es, end, j) + {}) == gone + Taken(sc, es, end, j);
      }
      prev := BlockOf(k);
      j := j + 1;
    }
    TakenIsSuperseded(sc, rows, name, ix, g, es, end);
  }

  lemma GroupTag(sc: Schema, name: Name, ix: Index, g: Bytes)
    requires IsGroup(sc, name, ix, g)
    ensures g != [] && g[0] == INDEX
  {
    NamesOf(sc, name, ix, g, g);
  }

  lemma NothingTaken(sc: Config, es: seq<Bytes>, end: u32)
    ensures Taken(sc, es, end, 0) == {}
  {
  }

  /** The key of the row that entry j stands for, which is there. */
  method ScanRow(sc: Config, db: Db, name: Name, ix: Index, g: Bytes, es: seq<Bytes>, j: nat) returns (k: Bytes)
    requires GoodRows(sc, ImageOf(db).rows) && IsTrimGroup(sc, name, ix, g) && j < |es|
    requires ScanOf(EntrySet(sc, ImageOf(db).rows), g, es)
    ensures k == RowAt(sc, es, j) && 14 <= |k| && k in db && k in ImageOf(db).rows && db[k] == ImageOf(db).rows[k]
  {
    hide GoodRows, RowAt, EntryFor, Group, ExtractPk, EntrySet, ScanOf, ReadStatus, STATUS_KEY;
    ScannedRow(sc, ImageOf(db).rows, name, ix, g, es, j);
    var pk := ExtractPkFromIndex(sc[name], name, ix.sortKeys, es[j]);
    k := pk.value;
  }

  /** The second loop of trim. */
  method TrimGroups(sc: Config, db: Db, groups: set<Bytes>, end: u32, batch: seq<Op>, ghost gone: set<Bytes>)
    returns (batch': seq<Op>)
    requires Shaped(db) && GoodRows(sc, ImageOf(db).rows) && ImageOf(db).entries == EntrySet(sc, ImageOf(db).rows)
    requires end < 0xffff_ffff && Removes(sc, ImageOf(db).rows, batch, gone)
    requires forall g :: g in groups ==>
      exists k :: k in ImageOf(db).rows && TrimGroup(sc, k, ImageOf(db).rows[k]) == Some(g)
    ensures Removes(sc, ImageOf(db).rows, batch', gone + set g, k | g in groups &&
            k in SupersededIn(sc, ImageOf(db).rows, end, g) :: k)
  {
    hide ImageOf, Shaped, GoodRows, Removes, SupersededIn, TrimGroup, EntrySet, EntryTable;
    ghost var rows := ImageOf(db).rows;
    batch' := batch;
    var todo := groups;
    ghost var done: set<Bytes> := {};
    ghost var out := gone;
    while todo != {}
      invariant todo + done == groups
      invariant Removes(sc, rows, batch', out)
      invariant out == gone + set g, k | g in done && k in SupersededIn(sc, rows, end, g) :: k
      decreases todo
    {
      var g :| g in todo;
      ghost var t :| t in rows && TrimGroup(sc, t, rows[t]) == Some(g);
      GroupOfTrimKey(sc, rows, t, g);
      var name := EntryTable(g);
      var ix := sc[name].trimIndex.value;
      batch' := TrimOne(sc, db, name, ix, g, end, batch', out);
      out := out + SupersededIn(sc, rows, end, g);
      todo, done := todo - {g}, done + {g};
    }
    assert done == groups;
  }

  lemma GroupOfTrimKey(sc: Config, rows: Db, t: Bytes, g: Bytes)
    requires t in rows && TrimGroup(sc, t, rows[t]) == Some(g)
    ensures 17 <= |g| && EntryTable(g) in sc && sc[EntryTable(g)].trimIndex.Some?
    ensures IsTrimGroup(sc, EntryTable(g), sc[EntryTable(g)].trimIndex.value, g)
  {
    hide Extract, Fill, EntryTable, IndexPrefix, KeyWidth;
    var ix := TrimIndexOf(sc, t).value;
    GroupNames(sc, t, rows[t], ix, g);
    GroupWidth(sc, t, rows[t], ix);
    assert ix in sc[TableOf(t)].indexes;
  }

  // ---------- the whole trim ----------

  lemma BlocksInScan(sc: Config, db: Db, first: u32, end: u32, ks: seq<Bytes>)
    requires Shaped(db) && GoodRows(sc, ImageOf(db).rows) && 1 <= first
    requires forall k :: k in ks <==> k in db && InRange(k, TableFrom(first), TableFrom(end))
    ensures forall k :: k in ks ==>
      k in db && k in ImageOf(db).rows && ImageOf(db).rows[k] == db[k] && first <= BlockOf(k) <= end
    ensures forall k :: k in ImageOf(db).rows && first <= BlockOf(k) <= end ==> k in ks
  {
    hide RowKey, RowEntries, BlockOf, InRange, TableFrom, ReadStatus, STATUS_KEY;
    var rows := ImageOf(db).rows;
    StatusKeyForm();
    forall k | k in db
      ensures InRange(k, TableFrom(first), TableFrom(end)) <==> k in rows && 14 <= |k| && first <= BlockOf(k) <= end
    {
      if IsEntryKey(k) {
        EntriesPast(k, first, end);
      } else {
        if k == STATUS_KEY { StatusKeyLength(); }
        assert k in rows || k == STATUS_KEY;
        InBlocks(k, first, end);
      }
    }
  }

  /** The two loops find exactly the rows to trim. */
  lemma LoopsFindTrimmed(sc: Config, rows: Db, ks: seq<Bytes>, groups: set<Bytes>, plain: set<Bytes>, first: u32,
          end: u32)
    requires GoodRows(sc, rows) && forall k :: k in ks <==> k in rows && first <= BlockOf(k) <= end
    requires forall k :: k in plain <==> k in ks && Plain(sc, first, end, k)
    requires forall g :: g in groups <==> exists k :: k in ks && Changed(sc, rows, first, end, k, g)
    ensures plain + (set g, k | g in groups &&
            k in SupersededIn(sc, rows, end, g) :: k) == Trimmed(sc, rows, first, end)
  {
    hide IsRow, TrimGroup, BlockOf, Superseded;
    forall k | k in Trimmed(sc, rows, first, end)
      ensures k in plain || exists g :: g in groups && k in SupersededIn(sc, rows, end, g)
    {
      if TrimIndexOf(sc, k).Some? {
        TrimGroupOfRow(sc, k, rows[k]);
        var g := TrimGroup(sc, k, rows[k]).value;
        var t :| t in rows && 14 <= |t| && TrimGroup(sc, t, rows[t]) == Some(g) && first < BlockOf(t) <= end;
        assert Changed(sc, rows, first, end, t, g);
        assert k in SupersededIn(sc, rows, end, g);
      }
    }
    forall g, k | g in groups && k in SupersededIn(sc, rows, end, g) ensures k in Trimmed(sc, rows, first, end) {
      HasTrimIndex(sc, k, rows[k]);
      var t :| t in ks && Changed(sc, rows, first, end, t, g);
      assert Selected(sc, rows, first, end, TrimGroup(sc, k, rows[k]));
    }
  }

  /** The batch of a trim, with the status last, makes this image. */
  lemma TrimImage(sc: Config, db: Db, batch: seq<Op>, gone: set<Bytes>, st: Status)
    requires Shaped(db) && GoodRows(sc, ImageOf(db).rows) && Removes(sc, ImageOf(db).rows, batch, gone)
    ensures var im := ImageOf(db); var d := Apply(db, batch + [Put(STATUS_KEY, StatusBytes(st))]);
      && Shaped(d) && ImageOf(d) == Image(im.rows - gone, im.entries - EntrySet(sc, Restrict(im.rows, gone)), Some(st))
      && GoodRows(sc, im.rows - gone)
  {
    hide ImageOf, Shaped, EntrySet, Erased, IsRow, STATUS_KEY, StatusBytes;
    var rows := ImageOf(db).rows;
    var xs := EntrySet(sc, Restrict(rows, gone));
    assert GoodRows(sc, Restrict(rows, gone));
    EntryKeysOnly(sc, Restrict(rows, gone));
    GoodRowKeys(sc, rows);
    ApplySnoc(db, batch, Put(STATUS_KEY, StatusBytes(st)));
    ApplyDeletes(db, batch);
    assert db - (gone + xs) == db - xs - gone;
    DeleteEntries(db, xs);
    DeleteRows(db - xs, gone);
    PutStatus(db - xs - gone, st);
  }

  /** The batch that trim fills, before the status. */
  method FillTrimBatch(sc: Config, db: Db, first: u32, end: u32) returns (batch: seq<Op>)
    requires Shaped(db) && GoodRows(sc, ImageOf(db).rows) && ImageOf(db).entries == EntrySet(sc, ImageOf(db).rows)
    requires 1 <= first && end < 0xffff_ffff
    ensures Removes(sc, ImageOf(db).rows, batch, Trimmed(sc, ImageOf(db).rows, first, end))
  {
    hide ImageOf, Shaped, Removes, SupersededIn, TrimGroup, EntrySet, InRange, TableFrom, Trimmed, IsRow, Plain;
    ghost var rows := ImageOf(db).rows;
    var ks := ForEach(db, TableFrom(first), TableFrom(end));
    BlocksInScan(sc, db, first, end, ks);
    var some, groups;
    ghost var plain;
    some, groups, plain := SelectRows(sc, db, ks, first, end);
    LoopsFindTrimmed(sc, rows, ks, groups, plain, first, end);
    batch := TrimGroups(sc, db, groups, end, some, plain);
  }
}
