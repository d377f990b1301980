/** What a query should answer, said about rows alone, and why trimming does not change it. */
module Answers {
  import opened Bytes
  import opened Store
  import opened KeyCodec
  import opened Tables
  import opened Trimming

  /** Row k has the sort keys that g encodes, and its block is not after the snapshot. */
  predicate InGroup(sc: Schema, rows: Db, ix: Index, g: Bytes, snapshot: u32, k: Bytes)
  {
    k in rows && 14 <= |k| && Group(sc, k, rows[k], ix) == Some(g) && BlockOf(k) <= snapshot
  }

  /** The row of the group with the greatest block up to the snapshot; of two in one block, the present one. */
  ghost predicate IsAnswer(sc: Schema, rows: Db, ix: Index, g: Bytes, snapshot: u32, k: Bytes)
  {
    && InGroup(sc, rows, ix, g, snapshot, k)
    && forall u :: InGroup(sc, rows, ix, g, snapshot, u) ==> u == k || NewerRow(k, u)
  }

  /** The sort keys are the table's key fields, in whatever order. */
  predicate Permutes(t: Table, ix: Index)
  {
    forall id: nat :: id < |t.fields| ==> (id in ix.sortKeys <==> id in t.keys)
  }

  // ---------- groups of different indexes ----------

  predicate SameKey(fields: seq<Field>, id: nat, v: Bytes, pos: Positions, v': Bytes, pos': Positions)
  {
    id < |fields| && id in pos && id in pos' && FieldKey(fields[id], v, pos[id]).Some?
    && FieldKey(fields[id], v', pos'[id]) == FieldKey(fields[id], v, pos[id])
  }

  lemma {:induction false} EqualKeysAgree(fields: seq<Field>, ids: seq<nat>, v: Bytes, pos: Positions, v': Bytes,
          pos': Positions)
    requires Known(fields, ids) && Extract(fields, ids, v, pos).Some? &&
             Extract(fields, ids, v', pos') == Extract(fields, ids, v, pos)
    ensures forall id :: id in ids ==> SameKey(fields, id, v, pos, v', pos')
  {
    if ids != [] {
      var a, b := FieldKey(fields[ids[0]], v, pos[ids[0]]).value, FieldKey(fields[ids[0]], v', pos'[ids[0]]).value;
      var a', b' := Extract(fields, ids[1..], v, pos).value, Extract(fields, ids[1..], v', pos').value;
      PairOrder(a, a', b, b');
      NumberInjective(a, b);
      EqualKeysAgree(fields, ids[1..], v, pos, v', pos');
      assert forall id :: id in ids ==> id == ids[0] || id in ids[1..];
    }
  }

  lemma {:induction false} AgreeingKeysEqual(fields: seq<Field>, ids: seq<nat>, v: Bytes, pos: Positions, v': Bytes,
          pos': Positions)
    requires Known(fields, ids) && forall id :: id in ids ==> SameKey(fields, id, v, pos, v', pos')
    ensures Extract(fields, ids, v, pos).Some? && Extract(fields, ids, v', pos') == Extract(fields, ids, v, pos)
  {
    if ids != [] {
      assert SameKey(fields, ids[0], v, pos, v', pos');
      AgreeingKeysEqual(fields, ids[1..], v, pos, v', pos');
    }
  }

  /** Two indexes over the same fields put the same rows together. */
  lemma GroupsAgree(sc: Schema, k: Bytes, v: Bytes, u: Bytes, w: Bytes, ix: Index, ix': Index)
    requires 14 <= |k| && 14 <= |u| && TableOf(k) in sc
    requires Known(sc[TableOf(k)].fields, ix'.sortKeys)
    requires forall id :: id in ix'.sortKeys ==> id in ix.sortKeys
    requires Group(sc, k, v, ix).Some? && Group(sc, u, w, ix) == Group(sc, k, v, ix)
    ensures Group(sc, k, v, ix').Some? && Group(sc, u, w, ix') == Group(sc, k, v, ix')
  {
    hide Extract, IndexPrefix, Fill;
    SameTable(sc, k, v, u, w, ix);
    var fields := sc[TableOf(k)].fields;
    var pos, pos' := Fields(sc[TableOf(k)], v).value.pos, Fields(sc[TableOf(k)], w).value.pos;
    var a, b := Extract(fields, ix.sortKeys, v, pos).value, Extract(fields, ix.sortKeys, w, pos').value;
    var p := IndexPrefix(TableOf(k), ix.name);
    assert (p + a)[17..] == a && (p + b)[17..] == b;
    EqualKeysAgree(fields, ix.sortKeys, v, pos, w, pos');
    AgreeingKeysEqual(fields, ix'.sortKeys, v, pos, w, pos');
  }

  // ---------- the newest row ----------

  lemma NewerOrder(a: Bytes, b: Bytes, c: Bytes)
    ensures !(NewerRow(a, b) && NewerRow(b, a)) && !NewerRow(a, a)
    ensures NewerRow(a, b) && NewerRow(b, c) ==> NewerRow(a, c)
  {
    hide BlockOf, PresentOf;
  }

  lemma Comparable(sc: Config, rows: Db, ix: Index, g: Bytes, snapshot: u32, k: Bytes, u: Bytes)
    requires GoodRows(sc, rows) && InGroup(sc, rows, ix, g, snapshot, k) && InGroup(sc, rows, ix, g, snapshot, u)
    requires TableOf(k) in sc && ix in sc[TableOf(k)].indexes
    ensures k == u || NewerRow(k, u) || NewerRow(u, k)
  {
    hide Group, IsRow, BlockOf, PresentOf;
    if BlockOf(k) == BlockOf(u) && PresentOf(k) == PresentOf(u) {
      GroupDetermines(sc, k, rows[k], u, rows[u], ix);
    }
  }

  lemma {:induction false} NewestAmong(sc: Config, rows: Db, ix: Index, g: Bytes, snapshot: u32, k: Bytes,
          left: set<Bytes>)
    requires GoodRows(sc, rows) && InGroup(sc, rows, ix, g, snapshot, k) && TableOf(k) in sc &&
             ix in sc[TableOf(k)].indexes
    requires forall u :: u in rows && u !in left && InGroup(sc, rows, ix, g, snapshot, u) ==> u == k || NewerRow(k, u)
    ensures exists m :: IsAnswer(sc, rows, ix, g, snapshot, m)
    decreases left
  {
    hide Group, IsRow, BlockOf, PresentOf, NewerRow, TableOf, InGroup;
    if u :| u in left {
      var next := k;
      if InGroup(sc, rows, ix, g, snapshot, u) {
        InGroupTable(sc, rows, ix, g, snapshot, k, u);
        Comparable(sc, rows, ix, g, snapshot, k, u);
        if NewerRow(u, k) { next := u; }
      }
      forall x | x in rows && x !in left - {u} && InGroup(sc, rows, ix, g, snapshot, x)
        ensures x == next || NewerRow(next, x)
      {
        NewerOrder(next, k, x);
      }
      NewestAmong(sc, rows, ix, g, snapshot, next, left - {u});
    } else {
      forall u | InGroup(sc, rows, ix, g, snapshot, u)
        ensures u in rows { InGroupTable(sc, rows, ix, g, snapshot, k, u); }
      assert IsAnswer(sc, rows, ix, g, snapshot, k);
    }
  }

  lemma InGroupTable(sc: Schema, rows: Db, ix: Index, g: Bytes, snapshot: u32, k: Bytes, u: Bytes)
    requires InGroup(sc, rows, ix, g, snapshot, k) && InGroup(sc, rows, ix, g, snapshot, u)
    ensures k in rows && u in rows && 14 <= |k| && 14 <= |u| && TableOf(u) == TableOf(k)
  {
    SameTable(sc, k, rows[k], u, rows[u], ix);
  }

  /** A group with a row up to the snapshot has a newest one. */
  lemma AnswerExists(sc: Config, rows: Db, ix: Index, g: Bytes, snapshot: u32, k: Bytes)
    requires GoodRows(sc, rows) && InGroup(sc, rows, ix, g, snapshot, k) && TableOf(k) in sc &&
             ix in sc[TableOf(k)].indexes
    ensures exists m :: IsAnswer(sc, rows, ix, g, snapshot, m)
  {
    NewestAmong(sc, rows, ix, g, snapshot, k, rows.Keys);
  }

  // ---------- trimming ----------

  /** The index and the table's trim index are both over exactly the key fields. */
  predicate KeyedAlike(sc: Schema, name: Name, ix: Index)
  {
    && name in sc && ix in sc[name].indexes && Permutes(sc[name], ix)
    && sc[name].trimIndex.Some? && Permutes(sc[name], sc[name].trimIndex.value)
  }

  lemma AlikeKeys(sc: Schema, name: Name, ix: Index)
    requires KeyedAlike(sc, name, ix)
    ensures var t := sc[name]; var ti := t.trimIndex.value;
      && Known(t.fields, ix.sortKeys) && Known(t.fields, ti.sortKeys)
      && (forall id :: id in ix.sortKeys ==> id in ti.sortKeys)
      && (forall id :: id in ti.sortKeys ==> id in ix.sortKeys)
  {
    var t := sc[name];
    assert Known(t.fields, ix.sortKeys) && Known(t.fields, t.trimIndex.value.sortKeys);
    forall id | id in ix.sortKeys ensures id < |t.fields| { }
    forall id | id in t.trimIndex.value.sortKeys ensures id < |t.fields| { }
  }

  /** A row that a trim removes has a newer one, with a block up to the trim's end, in its group. */
  lemma TrimmedHasNewer(sc: Config, rows: Db, first: u32, end: u32, ix: Index, g: Bytes, snapshot: u32, k: Bytes)
    requires GoodRows(sc, rows) && InGroup(sc, rows, ix, g, snapshot, k) && KeyedAlike(sc, TableOf(k), ix) &&
             end <= snapshot
    requires k in Trimmed(sc, rows, first, end)
    ensures exists u :: InGroup(sc, rows, ix, g, snapshot, u) && NewerRow(u, k)
  {
    hide Group, IsRow, BlockOf, PresentOf, Permutes;
    var u :| u in rows && NewerRow(u, k) && TrimGroup(sc, u, rows[u]) == TrimGroup(sc, k, rows[k]) && BlockOf(u) <= end;
    AlikeKeys(sc, TableOf(k), ix);
    var ti := sc[TableOf(k)].trimIndex.value;
    GroupsAgree(sc, k, rows[k], k, rows[k], ix, ti);
    SameTrimTable(sc, rows, k, u);
    GroupsAgree(sc, k, rows[k], u, rows[u], ti, ix);
    assert InGroup(sc, rows, ix, g, snapshot, u);
  }

  /** The newest row up to a snapshot from the trim's end on stays. */
  lemma AnswerStays(sc: Config, rows: Db, first: u32, end: u32, ix: Index, g: Bytes, snapshot: u32, k: Bytes)
    requires GoodRows(sc, rows) && IsAnswer(sc, rows, ix, g, snapshot, k) && KeyedAlike(sc, TableOf(k), ix) &&
             end <= snapshot
    ensures IsAnswer(sc, rows - Trimmed(sc, rows, first, end), ix, g, snapshot, k)
  {
    hide Group, IsRow, BlockOf, PresentOf, NewerRow, KeyedAlike, Trimmed;
    if k in Trimmed(sc, rows, first, end) {
      TrimmedHasNewer(sc, rows, first, end, ix, g, snapshot, k);
      var u :| InGroup(sc, rows, ix, g, snapshot, u) && NewerRow(u, k);
      NewerOrder(k, u, k);
      assert false;
    }
    var left := rows - Trimmed(sc, rows, first, end);
    forall u | InGroup(sc, left, ix, g, snapshot, u) ensures InGroup(sc, rows, ix, g, snapshot, u) { }
  }

  /** Trimming changes no answer at a snapshot from its end on. */
  lemma TrimKeepsAnswers(sc: Config, rows: Db, first: u32, end: u32, ix: Index, g: Bytes, snapshot: u32, k: Bytes)
    requires GoodRows(sc, rows) && k in rows && KeyedAlike(sc, TableOf(k), ix) && end <= snapshot
    ensures IsAnswer(sc, rows, ix, g, snapshot, k) <==>
      IsAnswer(sc, rows - Trimmed(sc, rows, first, end), ix, g, snapshot, k)
  {
    hide Group, IsRow, BlockOf, PresentOf, NewerRow, KeyedAlike, Trimmed, TableOf;
    var left := rows - Trimmed(sc, rows, first, end);
    if IsAnswer(sc, rows, ix, g, snapshot, k) {
      AnswerStays(sc, rows, first, end, ix, g, snapshot, k);
    }
    if IsAnswer(sc, left, ix, g, snapshot, k) {
      assert InGroup(sc, rows, ix, g, snapshot, k);
      AlikeIndex(sc, TableOf(k), ix);
      AnswerExists(sc, rows, ix, g, snapshot, k);
      var m :| IsAnswer(sc, rows, ix, g, snapshot, m);
      InGroupTable(sc, rows, ix, g, snapshot, k, m);
      AnswerStays(sc, rows, first, end, ix, g, snapshot, m);
      NewerOrder(k, m, k);
      assert k == m;
    }
  }

  lemma AlikeIndex(sc: Schema, name: Name, ix: Index)
    requires KeyedAlike(sc, name, ix)
    ensures name in sc && ix in sc[name].indexes
  {
  }

  /** Trimming empties no group, so pages begin and end where they did. */
  lemma TrimKeepsGroups(sc: Config, rows: Db, first: u32, end: u32, ix: Index, g: Bytes, k: Bytes)
    requires GoodRows(sc, rows) && InGroup(sc, rows, ix, g, 0xffff_ffff, k) && KeyedAlike(sc, TableOf(k), ix)
    ensures exists m :: InGroup(sc, rows - Trimmed(sc, rows, first, end), ix, g, 0xffff_ffff, m)
  {
    hide Group, IsRow, BlockOf, PresentOf, NewerRow, KeyedAlike, Trimmed, TableOf;
    AlikeIndex(sc, TableOf(k), ix);
    AnswerExists(sc, rows, ix, g, 0xffff_ffff, k);
    var m :| IsAnswer(sc, rows, ix, g, 0xffff_ffff, m);
    InGroupTable(sc, rows, ix, g, 0xffff_ffff, k, m);
    AnswerStays(sc, rows, first, end, ix, g, 0xffff_ffff, m);
    assert InGroup(sc, rows - Trimmed(sc, rows, first, end), ix, g, 0xffff_ffff, m);
  }
}
