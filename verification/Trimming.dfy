/** Which rows a trim of the history removes, and what it leaves: fill_rocksdb_plugin.cpp, trim. */
module Trimming {
  import opened Bytes
  import opened Store
  import opened KeyCodec
  import opened Tables

  function TrimIndexOf(sc: Schema, k: Bytes): Option<Index>
  {
    if |k| < 14 || TableOf(k) !in sc then None else sc[TableOf(k)].trimIndex
  }

  /** Rows of a table with a trim index are trimmed group by group, where a group has equal sort keys. */
  function TrimGroup(sc: Schema, k: Bytes, v: Bytes): Option<Bytes>
  {
    if TrimIndexOf(sc, k).None? then None else Group(sc, k, v, TrimIndexOf(sc, k).value)
  }

  predicate NewerRow(k: Bytes, k': Bytes)
  {
    14 <= |k| && 14 <= |k'| && Newer(BlockOf(k), PresentOf(k), BlockOf(k'), PresentOf(k'))
  }

  /** Some row of the group changed in (first, end]. */
  predicate Selected(sc: Schema, rows: Db, first: u32, end: u32, g: Option<Bytes>)
  {
    exists t :: t in rows && 14 <= |t| && TrimGroup(sc, t, rows[t]) == g && first < BlockOf(t) <= end
  }

  /** A row of the group, newer than k, still counts at block end. */
  predicate Superseded(sc: Schema, rows: Db, end: u32, k: Bytes)
    requires k in rows
  {
    exists u :: u in rows && NewerRow(u, k) && TrimGroup(sc, u, rows[u]) == TrimGroup(sc, k, rows[k])
      && BlockOf(u) <= end
  }

  predicate Trims(sc: Schema, rows: Db, first: u32, end: u32, k: Bytes)
    requires k in rows
  {
    14 <= |k| &&
    if TrimIndexOf(sc, k).None? then first <= BlockOf(k) < end
    else Selected(sc, rows, first, end, TrimGroup(sc, k, rows[k])) && Superseded(sc, rows, end, k)
  }

  function Trimmed(sc: Schema, rows: Db, first: u32, end: u32): set<Bytes>
  {
    set k | k in rows && Trims(sc, rows, first, end, k)
  }

  // ---------- one row per group up to first ----------

  predicate AtMostOne(sc: Schema, rows: Db, first: u32)
  {
    forall k, u :: k in rows && u in rows && SameGroup(sc, rows, k, u) && BlockOf(k) <= first && BlockOf(u) <= first ==>
      k == u
  }

  predicate SameGroup(sc: Schema, rows: Db, k: Bytes, u: Bytes)
    requires k in rows && u in rows
  {
    14 <= |k| && 14 <= |u| && TrimGroup(sc, k, rows[k]).Some? && TrimGroup(sc, u, rows[u]) == TrimGroup(sc, k, rows[k])
  }

  /** Two rows of one group differ in block or presence. */
  lemma GroupDetermines(sc: Config, k: Bytes, v: Bytes, u: Bytes, w: Bytes, ix: Index)
    requires IsRow(sc, k, v) && IsRow(sc, u, w) && ix in sc[TableOf(k)].indexes
    requires Group(sc, k, v, ix).Some? && Group(sc, u, w, ix) == Group(sc, k, v, ix)
    requires BlockOf(k) == BlockOf(u) && PresentOf(k) == PresentOf(u)
    ensures k == u
  {
    hide Extract, IndexPrefix, IndexSuffix, Fill, RowKey, EntriesOf, PkOf, IsRow, Group;
    EntryCount(sc, k, v);
    EntryCount(sc, u, w);
    SameTable(sc, k, v, u, w, ix);
    var i :| 0 <= i < |sc[TableOf(k)].indexes| && sc[TableOf(k)].indexes[i] == ix;
    EntryForm(sc, k, v, i);
    EntryForm(sc, u, w, i);
    EntryFindsRow(sc, k, v, EntriesOf(sc, k, v)[i]);
    EntryFindsRow(sc, u, w, EntriesOf(sc, u, w)[i]);
  }

  lemma EntryCount(sc: Schema, k: Bytes, v: Bytes)
    requires IsRow(sc, k, v)
    ensures 14 <= |k| && TableOf(k) in sc && |EntriesOf(sc, k, v)| == |sc[TableOf(k)].indexes|
  {
  }

  lemma SameTable(sc: Schema, k: Bytes, v: Bytes, u: Bytes, w: Bytes, ix: Index)
    requires 14 <= |k| && 14 <= |u|
    requires Group(sc, k, v, ix).Some? && Group(sc, u, w, ix) == Group(sc, k, v, ix)
    ensures TableOf(u) == TableOf(k)
  {
    hide Group, EntryTable, EntryIndex;
    GroupForm(sc, k, v, ix);
    GroupForm(sc, u, w, ix);
    var g := Group(sc, k, v, ix).value;
    assert EntryTable(g + []) == TableOf(k) && EntryTable(g + []) == TableOf(u);
  }

  lemma TrimGroupDetermines(sc: Config, rows: Db, k: Bytes, u: Bytes)
    requires GoodRows(sc, rows) && k in rows && u in rows && SameGroup(sc, rows, k, u)
    ensures k == u || NewerRow(k, u) || NewerRow(u, k)
  {
    hide Group, IsRow;
    EntryCount(sc, k, rows[k]);
    if BlockOf(k) == BlockOf(u) && PresentOf(k) == PresentOf(u) {
      var ix := TrimIndexOf(sc, k).value;
      SameTrimTable(sc, rows, k, u);
      GroupDetermines(sc, k, rows[k], u, rows[u], ix);
    }
  }

  lemma SameTrimTable(sc: Schema, rows: Db, k: Bytes, u: Bytes)
    requires k in rows && u in rows && SameGroup(sc, rows, k, u)
    ensures TableOf(u) == TableOf(k) && TrimIndexOf(sc, k).Some? && TrimIndexOf(sc, u) == TrimIndexOf(sc, k)
  {
    hide Group, EntryTable, EntryIndex;
    GroupForm(sc, k, rows[k], TrimIndexOf(sc, k).value);
    GroupForm(sc, u, rows[u], TrimIndexOf(sc, u).value);
    var g := TrimGroup(sc, k, rows[k]).value;
    assert EntryTable(g + []) == TableOf(k) && EntryTable(g + []) == TableOf(u);
  }

  /** Of two rows of one group with blocks up to end, the older one goes. */
  lemma OlderGoes(sc: Config, rows: Db, first: u32, end: u32, u: Bytes, k: Bytes)
    requires GoodRows(sc, rows) && AtMostOne(sc, rows, first) && first <= end
    requires k in rows && u in rows && SameGroup(sc, rows, k, u) && NewerRow(u, k) && BlockOf(u) <= end
    ensures k in Trimmed(sc, rows, first, end)
  {
    hide Group, IsRow, TrimGroup;
    SameTrimTable(sc, rows, k, u);
    assert SameGroup(sc, rows, u, k);
    var t := if first < BlockOf(u) then u else k;
    assert k != u;
    assert first < BlockOf(u);
    assert Selected(sc, rows, first, end, TrimGroup(sc, k, rows[k]));
    assert Superseded(sc, rows, end, k);
  }

  /** After a trim up to end, each group has at most one row with a block up to end. */
  lemma TrimLeavesOne(sc: Config, rows: Db, first: u32, end: u32)
    requires GoodRows(sc, rows) && AtMostOne(sc, rows, first) && first <= end
    ensures AtMostOne(sc, rows - Trimmed(sc, rows, first, end), end)
  {
    hide Group, IsRow, TrimGroup, Trimmed;
    var left := rows - Trimmed(sc, rows, first, end);
    forall k, u | k in left && u in left && SameGroup(sc, left, k, u) && BlockOf(k) <= end && BlockOf(u) <= end
      ensures k == u
    {
      assert SameGroup(sc, rows, k, u) && SameGroup(sc, rows, u, k);
      TrimGroupDetermines(sc, rows, k, u);
      if NewerRow(k, u) {
        OlderGoes(sc, rows, first, end, k, u);
      } else if NewerRow(u, k) {
        OlderGoes(sc, rows, first, end, u, k);
      }
    }
  }

  /** Passing over the rows of block first is sound: what a trim removes from a group does not depend on it. */
  lemma SkippingFirstIsSound(sc: Config, rows: Db, first: u32, end: u32, k: Bytes)
    requires GoodRows(sc, rows) && AtMostOne(sc, rows, first) && first <= end
    requires k in rows && TrimGroup(sc, k, rows[k]).Some?
    ensures k in Trimmed(sc, rows, first, end) <==> Superseded(sc, rows, end, k)
  {
    hide Group, IsRow, TrimGroup;
    if Superseded(sc, rows, end, k) {
      var u :| u in rows && NewerRow(u, k) && TrimGroup(sc, u, rows[u]) == TrimGroup(sc, k, rows[k])
        && BlockOf(u) <= end;
      assert SameGroup(sc, rows, k, u);
      OlderGoes(sc, rows, first, end, u, k);
    } else {
      HasTrimIndex(sc, k, rows[k]);
    }
  }

  lemma HasTrimIndex(sc: Schema, k: Bytes, v: Bytes)
    requires TrimGroup(sc, k, v).Some?
    ensures TrimIndexOf(sc, k).Some?
  {
  }

  // ---------- what a trim leaves ----------

  /** Some row with the same key in the index, of a block up to end, is of a later block, or a present one of the same.
      */
  ghost predicate Outdated(sc: Schema, rows: Db, end: u32, k: Bytes, ix: Index)
    requires k in rows && 14 <= |k|
  {
    exists u :: u in rows && 14 <= |u| && Group(sc, u, rows[u], ix) == Group(sc, k, rows[k], ix) && BlockOf(u) <= end
      && (BlockOf(k) < BlockOf(u) || (BlockOf(k) == BlockOf(u) && !PresentOf(k) && PresentOf(u)))
  }

  /** A trim leaves a row of a table without a trim index exactly if its block is not in the range, and another row
      exactly if none of its key in the trim index is newer up to the end. */
  lemma TrimIsExact(sc: Config, rows: Db, first: u32, end: u32, k: Bytes)
    requires GoodRows(sc, rows) && AtMostOne(sc, rows, first) && first <= end && k in rows
    ensures 14 <= |k| && TableOf(k) in sc
    ensures var left := rows - Trimmed(sc, rows, first, end); var trimIndex := sc[TableOf(k)].trimIndex;
      k in left <==>
        if trimIndex.None? then BlockOf(k) < first || end <= BlockOf(k)
        else !Outdated(sc, rows, end, k, trimIndex.value)
  {
    hide Group, IsRow, BlockOf, PresentOf, TableOf;
    EntryCount(sc, k, rows[k]);
    if sc[TableOf(k)].trimIndex.Some? {
      var ix := sc[TableOf(k)].trimIndex.value;
      InTrimIndex(sc, k, rows[k], ix);
      SkippingFirstIsSound(sc, rows, first, end, k);
      if Outdated(sc, rows, end, k, ix) {
        var u :| u in rows && 14 <= |u| && Group(sc, u, rows[u], ix) == Group(sc, k, rows[k], ix) && BlockOf(u) <= end
          && (BlockOf(k) < BlockOf(u) || (BlockOf(k) == BlockOf(u) && !PresentOf(k) && PresentOf(u)));
        SameTable(sc, k, rows[k], u, rows[u], ix);
        assert NewerRow(u, k) && TrimGroup(sc, u, rows[u]) == TrimGroup(sc, k, rows[k]);
      }
      if Superseded(sc, rows, end, k) {
        var u :| u in rows && NewerRow(u, k) && TrimGroup(sc, u, rows[u]) == TrimGroup(sc, k, rows[k])
          && BlockOf(u) <= end;
        SameTrimTable(sc, rows, k, u);
      }
    }
  }

  lemma InTrimIndex(sc: Config, k: Bytes, v: Bytes, ix: Index)
    requires IsRow(sc, k, v) && 14 <= |k| && TableOf(k) in sc && sc[TableOf(k)].trimIndex == Some(ix)
    ensures Group(sc, k, v, ix).Some?
  {
    hide IsRow, Group, Extract, Fill;
    EntryCount(sc, k, v);
    var i :| 0 <= i < |sc[TableOf(k)].indexes| && sc[TableOf(k)].indexes[i] == ix;
    EntryForm(sc, k, v, i);
  }
}
