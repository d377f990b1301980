/** What scans of the database find: rows by block, and the index entries of a group, newest first. */
module Scans {
  import opened Bytes
  import opened Store
  import opened KeyCodec
  import opened Tables
  import opened Trimming

  // ---------- rows by block ----------

  /** make_table_key(block). */
  function TableFrom(block: u32): (r: Bytes)
    ensures |r| == 5
  {
    [TABLE] + BigEndian(block, 4)
  }

  lemma FromBlock(k: Bytes, block: u32)
    requires 14 <= |k| && k[0] == TABLE
    ensures Less(TableFrom(block), k[..5]) <==> block < BlockOf(k)
    ensures TableFrom(block) == k[..5] <==> block == BlockOf(k)
    ensures Less(k[..5], TableFrom(block)) <==> BlockOf(k) < block
  {
    var b := BigEndian(block, 4);
    assert k[..5] == [TABLE] + k[1..5];
    TagOrder(b, k[1..5]);
    TagOrder(k[1..5], b);
    NumberOrder(b, k[1..5]);
    NumberOrder(k[1..5], b);
    NumberInjective(b, k[1..5]);
    Powers256();
    NumberBigEndian(block, 4);
    assert TableFrom(block)[1..] == b && ([TABLE] + k[1..5])[1..] == k[1..5];
  }

  lemma InBlocks(k: Bytes, first: u32, last: u32)
    requires 14 <= |k| && k[0] == TABLE
    ensures InRange(k, TableFrom(first), TableFrom(last)) <==> first <= BlockOf(k) <= last
    ensures InRange(k, TableFrom(first), [TABLE]) <==> first <= BlockOf(k)
  {
    hide Less, Past, BlockOf, TableFrom;
    FromBlock(k, first);
    FromBlock(k, last);
    LessPrefix(k, TableFrom(first));
    PastPrefix(k, TableFrom(last));
    TagPast(k);
  }

  lemma TagPast(k: Bytes)
    requires k != []
    ensures Past(k, [TABLE]) <==> TABLE < k[0]
  {
  }

  lemma EntriesPast(x: Bytes, first: u32, last: u32)
    requires x != [] && x[0] == INDEX
    ensures !InRange(x, TableFrom(first), TableFrom(last)) && !InRange(x, TableFrom(first), [TABLE])
  {
  }

  // ---------- entries of one index ----------

  lemma GroupWidth(sc: Schema, k: Bytes, v: Bytes, ix: Index)
    requires Group(sc, k, v, ix).Some?
    ensures Known(sc[TableOf(k)].fields, ix.sortKeys)
    ensures |Group(sc, k, v, ix).value| == 17 + KeyWidth(sc[TableOf(k)].fields, ix.sortKeys)
  {
    hide Extract, Fill, IndexPrefix;
    var t := sc[TableOf(k)];
    ExtractWidth(t.fields, ix.sortKeys, v, Fields(t, v).value.pos);
  }

  /** Entry x stands for row k: it is k's group in the index, then k's block and presence. */
  predicate EntryFor(sc: Schema, rows: Db, ix: Index, x: Bytes, k: Bytes)
  {
    && k in rows && 14 <= |k| && Group(sc, k, rows[k], ix).Some?
    && x == Group(sc, k, rows[k], ix).value + IndexSuffix(BlockOf(k), PresentOf(k))
  }

  lemma NameDeterminesIndex(sc: Config, name: Name, i: nat, ix: Index)
    requires name in sc && i < |sc[name].indexes| && ix in sc[name].indexes && sc[name].indexes[i].name == ix.name
    ensures sc[name].indexes[i] == ix
  {
    var j :| 0 <= j < |sc[name].indexes| && sc[name].indexes[j] == ix;
    assert Distinct(sc[name].indexes);
  }

  /** An entry with the names of an index leads to a row of the table, and is that row's entry in the index. */
  lemma EntryAt(sc: Config, rows: Db, name: Name, ix: Index, x: Bytes)
    requires GoodRows(sc, rows) && x in EntrySet(sc, rows) && 17 <= |x|
    requires name in sc && ix in sc[name].indexes && EntryTable(x) == name && EntryIndex(x) == ix.name
    ensures PkOf(sc, x).Some? && PkOf(sc, x) == ExtractPk(sc[name], name, ix.sortKeys, x)
    ensures EntryFor(sc, rows, ix, x, PkOf(sc, x).value) && TableOf(PkOf(sc, x).value) == name
    ensures |x| == 22 + KeyWidth(sc[name].fields, ix.sortKeys)
  {
    hide Extract, ExtractPk, IndexPrefix, IndexSuffix, Fill, EntryTable, EntryIndex, FindIndex, Group, IsRow,
         EntriesOf, TableOf, BlockOf, PresentOf;
    InEntrySet(sc, rows, x);
    var k := PkOf(sc, x).value;
    var i :| 0 <= i < |EntriesOf(sc, k, rows[k])| && EntriesOf(sc, k, rows[k])[i] == x;
    EntryForm(sc, k, rows[k], i);
    EntryCount(sc, k, rows[k]);
    var ix' := sc[TableOf(k)].indexes[i];
    GroupForm(sc, k, rows[k], ix');
    NameDeterminesIndex(sc, name, i, ix);
    GroupWidth(sc, k, rows[k], ix);
    var j :| 0 <= j < |sc[name].indexes| && sc[name].indexes[j] == ix;
    FindsIndex(sc[name].indexes, j);
  }

  /** A row has its entry in each index of its table. */
  lemma RowHasEntry(sc: Config, rows: Db, ix: Index, k: Bytes)
    requires GoodRows(sc, rows) && k in rows && TableOf(k) in sc && ix in sc[TableOf(k)].indexes
    ensures Group(sc, k, rows[k], ix).Some?
    ensures Group(sc, k, rows[k], ix).value + IndexSuffix(BlockOf(k), PresentOf(k)) in EntrySet(sc, rows)
  {
    hide Group, IsRow, EntriesOf, IndexSuffix;
    EntryCount(sc, k, rows[k]);
    var i :| 0 <= i < |sc[TableOf(k)].indexes| && sc[TableOf(k)].indexes[i] == ix;
    EntryForm(sc, k, rows[k], i);
    assert EntriesOf(sc, k, rows[k])[i] in EntriesOf(sc, k, rows[k]);
  }

  // ---------- entries of one group ----------

  /** A scan from a prefix to itself finds the keys that have it. */
  lemma SamePrefix(x: Bytes, g: Bytes)
    requires |g| <= |x|
    ensures InRange(x, g, g) <==> x[..|g|] == g
  {
    hide Less, Past;
    LessPrefix(x, g);
    PastPrefix(x, g);
    LessTotal(g, x[..|g|]);
    if Less(g, x[..|g|]) { NotBoth(g, x[..|g|]); }
    LessIrreflexive(g);
  }

  /** The group that g stands for. */
  predicate IsGroup(sc: Schema, name: Name, ix: Index, g: Bytes)
  {
    && name in sc && ix in sc[name].indexes && Known(sc[name].fields, ix.sortKeys)
    && |g| == 17 + KeyWidth(sc[name].fields, ix.sortKeys) && g[..17] == IndexPrefix(name, ix.name)
  }

  lemma NamesOf(sc: Schema, name: Name, ix: Index, g: Bytes, x: Bytes)
    requires IsGroup(sc, name, ix, g) && 17 <= |x| && x[..17] == g[..17]
    ensures EntryTable(x) == name && EntryIndex(x) == ix.name && x[0] == INDEX
  {
    hide IndexPrefix;
    ReadIndexPrefix(name, ix.name, x[17..]);
    assert x == IndexPrefix(name, ix.name) + x[17..];
  }

  /** The entries with prefix g are those of the rows in the group. */
  lemma GroupEntry(sc: Config, rows: Db, name: Name, ix: Index, g: Bytes, x: Bytes)
    requires GoodRows(sc, rows) && IsGroup(sc, name, ix, g) && x in EntrySet(sc, rows) && |g| <= |x| && x[..|g|] == g
    ensures PkOf(sc, x).Some? && PkOf(sc, x) == ExtractPk(sc[name], name, ix.sortKeys, x)
    ensures EntryFor(sc, rows, ix, x, PkOf(sc, x).value) && TableOf(PkOf(sc, x).value) == name
    ensures Group(sc, PkOf(sc, x).value, rows[PkOf(sc, x).value], ix) == Some(g)
  {
    hide Extract, ExtractPk, IndexPrefix, IndexSuffix, EntryTable, EntryIndex, Group, IsRow, EntrySet, PkOf, KeyWidth;
    assert x[..17] == x[..|g|][..17];
    NamesOf(sc, name, ix, g, x);
    EntryAt(sc, rows, name, ix, x);
    var k := PkOf(sc, x).value;
    assert Group(sc, k, rows[k], ix).value == x[..|g|];
  }

  lemma RowInGroupHasEntry(sc: Config, rows: Db, name: Name, ix: Index, g: Bytes, k: Bytes)
    requires GoodRows(sc, rows) && IsGroup(sc, name, ix, g) && k in rows && Group(sc, k, rows[k], ix) == Some(g)
    ensures 14 <= |k| && TableOf(k) == name
    ensures g + IndexSuffix(BlockOf(k), PresentOf(k)) in EntrySet(sc, rows)
    ensures PkOf(sc, g + IndexSuffix(BlockOf(k), PresentOf(k))) == Some(k)
  {
    hide Extract, IndexPrefix, IndexSuffix, EntryTable, EntryIndex, Group, IsRow, EntrySet, PkOf, KeyWidth,
         EntriesOf, TableOf;
    GroupNames(sc, k, rows[k], ix, g);
    NamesOf(sc, name, ix, g, g);
    RowHasEntry(sc, rows, ix, k);
    var x := g + IndexSuffix(BlockOf(k), PresentOf(k));
    EntryCount(sc, k, rows[k]);
    var i :| 0 <= i < |sc[name].indexes| && sc[name].indexes[i] == ix;
    EntryForm(sc, k, rows[k], i);
    EntryFindsRow(sc, k, rows[k], x);
  }

  lemma GroupNames(sc: Schema, k: Bytes, v: Bytes, ix: Index, g: Bytes)
    requires Group(sc, k, v, ix) == Some(g)
    ensures 14 <= |k| && TableOf(k) in sc && 17 <= |g| && EntryTable(g) == TableOf(k)
  {
    hide EntryTable, TableOf, IndexPrefix;
    GroupForm(sc, k, v, ix);
    assert g + [] == g;
    assert EntryTable(g + []) == TableOf(k);
  }

  /** Of two entries of a group, the one of the newer row comes first. */
  lemma GroupOrder(sc: Schema, rows: Db, ix: Index, g: Bytes, x: Bytes, k: Bytes, x': Bytes, k': Bytes)
    requires EntryFor(sc, rows, ix, x, k) && EntryFor(sc, rows, ix, x', k')
    requires Group(sc, k, rows[k], ix) == Some(g) && Group(sc, k', rows[k'], ix) == Some(g)
    ensures Less(x, x') <==> NewerRow(k, k')
  {
    hide Group, IndexSuffix, BlockOf, PresentOf, Less;
    EntryOrder(g, BlockOf(k), PresentOf(k), g, BlockOf(k'), PresentOf(k'));
    LessIrreflexive(g);
  }
}
