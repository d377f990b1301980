/** Rows and index entries as one image of the database. */
module Tables {
  import opened Bytes
  import opened Store
  import opened KeyCodec

  const FILL_STATUS: Name := 0x5ba3106326ceb000
  const RECEIVED: Name := 0xba91b480f1a22000

  const RECEIVED_BLOCK: Table :=
    Table([Field(Fixed(4, true), false, false), Field(Fixed(32, true), false, false)], [], [], false, None)

  // ---------- configurations ----------

  predicate Distinct(ixs: seq<Index>)
  {
    forall i, j :: 0 <= i < j < |ixs| ==> ixs[i].name != ixs[j].name
  }

  predicate Usable(sc: Schema)
  {
    && RECEIVED in sc && sc[RECEIVED] == RECEIVED_BLOCK
    && forall name :: name in sc ==>
         && Distinct(sc[name].indexes)
         && (forall i :: 0 <= i < |sc[name].indexes| ==> Covers(sc[name], sc[name].indexes[i].sortKeys))
         && (sc[name].isDelta <==> sc[name].trimIndex.Some?)
  }

  /** A configuration as the repository's own: indexes contain the key fields, delta tables can be trimmed. */
  type Config = sc: Schema | Usable(sc) witness map[RECEIVED := RECEIVED_BLOCK]

  // ---------- rows ----------

  predicate IsRow(sc: Schema, k: Bytes, v: Bytes)
  {
    && 14 <= |k|
    && RowKey(sc, BlockOf(k), TableOf(k), PresentOf(k), v) == Some(k)
    && RowEntries(sc, BlockOf(k), TableOf(k), PresentOf(k), v).Some?
  }

  /** The index entries of a row, as add_row makes them and remove_row finds them again. */
  function EntriesOf(sc: Schema, k: Bytes, v: Bytes): seq<Bytes>
  {
    if |k| < 14 then [] else
      var xs := RowEntries(sc, BlockOf(k), TableOf(k), PresentOf(k), v);
      if xs.None? then [] else xs.value
  }

  function EntrySet(sc: Schema, rows: Db): set<Bytes>
  {
    set k, x | k in rows && x in EntriesOf(sc, k, rows[k]) :: x
  }

  predicate GoodRows(sc: Schema, rows: Db)
  {
    forall k :: k in rows ==> IsRow(sc, k, rows[k]) && 1 <= BlockOf(k)
  }

  lemma AddedRow(sc: Schema, block: u32, name: Name, present: bool, v: Bytes)
    requires RowKey(sc, block, name, present, v).Some? && RowEntries(sc, block, name, present, v).Some?
    ensures var k := RowKey(sc, block, name, present, v).value;
      && IsRow(sc, k, v) && BlockOf(k) == block && TableOf(k) == name && PresentOf(k) == present
      && EntriesOf(sc, k, v) == RowEntries(sc, block, name, present, v).value
  {
    var key := Extract(sc[name].fields, sc[name].keys, v, Fields(sc[name], v).value.pos).value;
    ReadRowPrefix(block, name, present, key);
  }

  // ---------- from entries to rows ----------

  function FindIndex(ixs: seq<Index>, name: Name): (r: Option<Index>)
    ensures r.Some? ==> r.value in ixs && r.value.name == name
  {
    if ixs == [] then None else if ixs[0].name == name then Some(ixs[0]) else FindIndex(ixs[1..], name)
  }

  lemma {:induction false} FindsIndex(ixs: seq<Index>, i: nat)
    requires Distinct(ixs) && i < |ixs|
    ensures FindIndex(ixs, ixs[i].name) == Some(ixs[i])
  {
    if i > 0 {
      FindsIndex(ixs[1..], i - 1);
    }
  }

  function EntryTable(x: Bytes): Name
    requires 17 <= |x|
  {
    NumberBound8(x[1..9]);
    Number(x[1..9])
  }

  function EntryIndex(x: Bytes): Name
    requires 17 <= |x|
  {
    NumberBound8(x[9..17]);
    Number(x[9..17])
  }

  /** The row an index entry stands for. */
  function PkOf(sc: Schema, x: Bytes): Option<Bytes>
  {
    if |x| < 17 || EntryTable(x) !in sc then None else
      var t := sc[EntryTable(x)];
      var ix := FindIndex(t.indexes, EntryIndex(x));
      if ix.None? then None else ExtractPk(t, EntryTable(x), ix.value.sortKeys, x)
  }

  lemma ReadIndexPrefix(name: Name, index: Name, rest: Bytes)
    ensures EntryTable(IndexPrefix(name, index) + rest) == name
    ensures EntryIndex(IndexPrefix(name, index) + rest) == index
    ensures (IndexPrefix(name, index) + rest)[0] == INDEX
  {
    var x := IndexPrefix(name, index) + rest;
    assert x[1..9] == BigEndian(name, 8);
    assert x[9..17] == BigEndian(index, 8);
    Powers256();
    NumberBigEndian(name, 8);
    NumberBigEndian(index, 8);
  }

  /** A row's entry in one index without the suffix: the same for all rows with its sort keys. */
  function Group(sc: Schema, k: Bytes, v: Bytes, ix: Index): (r: Option<Bytes>)
  {
    if |k| < 14 || TableOf(k) !in sc || !Known(sc[TableOf(k)].fields, ix.sortKeys) then None else
      var s := Fields(sc[TableOf(k)], v);
      if s.None? then None else
        var key := Extract(sc[TableOf(k)].fields, ix.sortKeys, v, s.value.pos);
        if key.None? then None else Some(IndexPrefix(TableOf(k), ix.name) + key.value)
  }

  lemma EntryForm(sc: Schema, k: Bytes, v: Bytes, i: nat)
    requires IsRow(sc, k, v) && i < |EntriesOf(sc, k, v)|
    ensures TableOf(k) in sc && i < |sc[TableOf(k)].indexes|
    ensures Group(sc, k, v, sc[TableOf(k)].indexes[i]).Some?
    ensures EntriesOf(sc, k, v)[i]
         == Group(sc, k, v, sc[TableOf(k)].indexes[i]).value + IndexSuffix(BlockOf(k), PresentOf(k))
  {
    hide Extract, IndexPrefix, IndexSuffix, Fill, RowKey;
  }

  lemma GroupForm(sc: Schema, k: Bytes, v: Bytes, ix: Index)
    requires Group(sc, k, v, ix).Some?
    ensures 17 <= |Group(sc, k, v, ix).value|
    ensures forall y :: EntryTable(Group(sc, k, v, ix).value + y) == TableOf(k)
    ensures forall y :: EntryIndex(Group(sc, k, v, ix).value + y) == ix.name
    ensures Group(sc, k, v, ix).value[0] == INDEX
  {
    hide IndexPrefix, EntryTable, EntryIndex;
    var key := Extract(sc[TableOf(k)].fields, ix.sortKeys, v, Fields(sc[TableOf(k)], v).value.pos).value;
    forall y: Bytes
      ensures EntryTable(Group(sc, k, v, ix).value + y) == TableOf(k)
      ensures EntryIndex(Group(sc, k, v, ix).value + y) == ix.name
    {
      ReadIndexPrefix(TableOf(k), ix.name, key + y);
      assert IndexPrefix(TableOf(k), ix.name) + key + y == IndexPrefix(TableOf(k), ix.name) + (key + y);
    }
    ReadIndexPrefix(TableOf(k), ix.name, key);
  }

  /** An entry of a row leads back to that row, so no two rows share an entry. */
  lemma EntryFindsRow(sc: Config, k: Bytes, v: Bytes, x: Bytes)
    requires IsRow(sc, k, v) && x in EntriesOf(sc, k, v)
    ensures PkOf(sc, x) == Some(k)
    ensures 22 <= |x| && x[0] == INDEX
  {
    hide Extract, ExtractPk, IndexPrefix, IndexSuffix, Fill, EntryTable, EntryIndex, FindIndex;
    var i :| 0 <= i < |EntriesOf(sc, k, v)| && EntriesOf(sc, k, v)[i] == x;
    EntryForm(sc, k, v, i);
    var ix := sc[TableOf(k)].indexes[i];
    GroupForm(sc, k, v, ix);
    FindsIndex(sc[TableOf(k)].indexes, i);
    EntryLeadsToRow(sc, TableOf(k), ix, BlockOf(k), PresentOf(k), v);
  }

  lemma InEntrySet(sc: Config, rows: Db, x: Bytes)
    requires GoodRows(sc, rows)
    ensures x in EntrySet(sc, rows) <==>
              PkOf(sc, x).Some? && PkOf(sc, x).value in rows
                && x in EntriesOf(sc, PkOf(sc, x).value, rows[PkOf(sc, x).value])
  {
    hide IsRow, EntriesOf, PkOf;
    if x in EntrySet(sc, rows) {
      var k :| k in rows && x in EntriesOf(sc, k, rows[k]);
      EntryFindsRow(sc, k, rows[k], x);
    }
  }

  lemma EntriesUnion(sc: Config, a: Db, b: Db)
    requires a.Keys !! b.Keys
    ensures EntrySet(sc, a + b) == EntrySet(sc, a) + EntrySet(sc, b)
  {
    hide EntriesOf;
    forall x | x in EntrySet(sc, a) + EntrySet(sc, b) ensures x in EntrySet(sc, a + b) {
      if x in EntrySet(sc, a) {
        var k :| k in a && x in EntriesOf(sc, k, a[k]);
        assert (a + b)[k] == a[k];
      } else {
        var k :| k in b && x in EntriesOf(sc, k, b[k]);
        assert (a + b)[k] == b[k];
      }
    }
  }

  function Restrict(rows: Db, keys: set<Bytes>): Db
  {
    map k | k in rows && k in keys :: rows[k]
  }

  /** Taking rows away takes exactly their entries away. */
  lemma EntriesMinus(sc: Config, rows: Db, gone: set<Bytes>)
    requires GoodRows(sc, rows)
    ensures EntrySet(sc, rows - gone) == EntrySet(sc, rows) - EntrySet(sc, Restrict(rows, gone))
  {
    hide IsRow, EntriesOf, PkOf, EntrySet;
    var kept, lost := rows - gone, Restrict(rows, gone);
    assert GoodRows(sc, kept) && GoodRows(sc, lost);
    forall x ensures x in EntrySet(sc, kept) <==> x in EntrySet(sc, rows) && x !in EntrySet(sc, lost) {
      InEntrySet(sc, rows, x);
      InEntrySet(sc, kept, x);
      InEntrySet(sc, lost, x);
    }
  }

  lemma EntriesMonotone(sc: Config, a: Db, b: Db)
    requires forall k :: k in a ==> k in b && b[k] == a[k]
    ensures EntrySet(sc, a) <= EntrySet(sc, b)
  {
    hide EntriesOf;
  }
}
