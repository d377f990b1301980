/** The values of rows, field by field, and the keys and index entries made of them. */
module RowValues {
  import opened Bytes
  import opened Store
  import opened KeyCodec

  /** A value is laid out as its table says: a flag says whether the fields up to the end of its part follow, and
      present fields of known size have that size. Vals has the bytes of each field that is there. */
  predicate LaidOut(fields: seq<Field>, vals: seq<Option<Bytes>>, present: bool)
  {
    |vals| == |fields| &&
    (fields == [] ||
     if !present then
       !fields[0].beginOptional && vals[0].None? && LaidOut(fields[1..], vals[1..], fields[0].endOptional)
     else
       vals[0].Some? &&
       if fields[0].beginOptional then |vals[0].value| == 1 && LaidOut(fields[1..], vals[1..], vals[0].value[0] != 0)
       else (fields[0].ty.Fixed? ==> |vals[0].value| == fields[0].ty.width) && LaidOut(fields[1..], vals[1..], true))
  }

  /** The fields one after the other. */
  function ValueOf(vals: seq<Option<Bytes>>): Bytes
  {
    if vals == [] then [] else (if vals[0].Some? then vals[0].value else []) + ValueOf(vals[1..])
  }

  /** The scan ends here: the field is there, and of a size that the scan does not know. */
  predicate EndsScan(fields: seq<Field>, vals: seq<Option<Bytes>>, i: nat)
    requires |vals| == |fields| && i < |fields|
  {
    vals[i].Some? && !fields[i].beginOptional && fields[i].ty.Blob?
  }

  /** The field is there, and nothing before it ends the scan. */
  predicate Reachable(fields: seq<Field>, vals: seq<Option<Bytes>>, i: nat)
    requires |vals| == |fields|
  {
    i < |fields| && vals[i].Some? && forall b :: 0 <= b < i ==> !EndsScan(fields, vals, b)
  }

  /** Where a field starts. */
  function OffsetOf(vals: seq<Option<Bytes>>, i: nat): nat
    requires i <= |vals|
  {
    |ValueOf(vals[..i])|
  }

  lemma {:induction false} ValueConcat(a: seq<Option<Bytes>>, b: seq<Option<Bytes>>)
    ensures ValueOf(a + b) == ValueOf(a) + ValueOf(b)
  {
    if a == [] {
      assert a + b == b;
    } else {
      ValueConcat(a[1..], b);
      assert (a + b)[1..] == a[1..] + b;
    }
  }

  /** A field's bytes stand at its offset. */
  lemma FieldStands(vals: seq<Option<Bytes>>, i: nat)
    requires i < |vals|
    ensures var v := ValueOf(vals); var w := if vals[i].Some? then |vals[i].value| else 0; var at := OffsetOf(vals, i);
      && at + w <= |v| && OffsetOf(vals, i + 1) == at + w
      && (vals[i].Some? ==> v[at..at + w] == vals[i].value)
  {
    var one := [vals[i]];
    assert one[1..] == [];
    assert vals[..i + 1] == vals[..i] + one && vals == vals[..i + 1] + vals[i + 1..];
    ValueConcat(vals[..i], one);
    ValueConcat(vals[..i + 1], vals[i + 1..]);
    assert ValueOf(one) == if vals[i].Some? then vals[i].value else [];
  }

  /** The positions found so far are those of the reachable fields before i. */
  ghost predicate FoundBefore(fields: seq<Field>, vals: seq<Option<Bytes>>, i: nat, pos: Positions)
    requires |vals| == |fields|
  {
    forall j: nat :: (j in pos <==> j < i && Reachable(fields, vals, j))
      && (j in pos && j < |vals| ==> pos[j] == OffsetOf(vals, j))
  }

  lemma {:induction false} ScanValue(fields: seq<Field>, vals: seq<Option<Bytes>>, i: nat, present: bool,
          pos: Positions)
    requires |vals| == |fields| && i <= |fields| && LaidOut(fields[i..], vals[i..], present)
    requires FoundBefore(fields, vals, i, pos) && forall b :: 0 <= b < i ==> !EndsScan(fields, vals, b)
    ensures var r := Fill(fields, AllIds(|fields|)[i..], ValueOf(vals), Scan(OffsetOf(vals, i), present, pos));
      r.Some? && FoundBefore(fields, vals, |fields|, r.value.pos)
    decreases |fields| - i
  {
    hide ValueOf;
    var ids := AllIds(|fields|);
    if i < |fields| {
      assert ids[i..][0] == i && ids[i..][1..] == ids[i + 1..];
      assert fields[i..][0] == fields[i] && fields[i..][1..] == fields[i + 1..];
      assert vals[i..][0] == vals[i] && vals[i..][1..] == vals[i + 1..];
      FieldStands(vals, i);
      var at := OffsetOf(vals, i);
      var pos' := if present then pos[i := at] else pos;
      assert FoundBefore(fields, vals, i + 1, pos');
      if EndsScan(fields, vals, i) {
        assert forall j: nat :: Reachable(fields, vals, j) ==> j <= i;
      } else {
        var v := ValueOf(vals);
        if fields[i].beginOptional { assert v[at..at + 1][0] == v[at]; }
        var next := if fields[i].beginOptional then v[at] != 0 else present || fields[i].endOptional;
        ScanValue(fields, vals, i + 1, next, pos');
      }
    } else {
      assert forall j: nat :: Reachable(fields, vals, j) ==> j < i;
    }
  }

  /** fill_positions finds exactly the reachable fields of a value, each at its place. */
  lemma FieldsAreFound(t: Table, vals: seq<Option<Bytes>>)
    requires LaidOut(t.fields, vals, true)
    ensures |vals| == |t.fields|
    ensures var s := Fields(t, ValueOf(vals));
      && s.Some? && (forall i: nat :: i in s.value.pos <==> Reachable(t.fields, vals, i))
      && forall i :: i in s.value.pos ==> s.value.pos[i] == OffsetOf(vals, i)
  {
    hide ValueOf, Reachable;
    assert t.fields[0..] == t.fields && vals[0..] == vals && vals[..0] == []
      && AllIds(|t.fields|)[0..] == AllIds(|t.fields|);
    NoFields();
    assert FoundBefore(t.fields, vals, 0, map[]);
    ScanValue(t.fields, vals, 0, true, map[]);
    forall i: nat | Reachable(t.fields, vals, i) ensures i < |vals| { IsInside(t.fields, vals, i); }
  }

  lemma IsInside(fields: seq<Field>, vals: seq<Option<Bytes>>, i: nat)
    requires |vals| == |fields| && Reachable(fields, vals, i)
    ensures i < |vals|
  {
  }

  lemma NoFields()
    ensures ValueOf([]) == []
  {
  }

  // ---------- keys and entries ----------

  /** Flags are one byte. */
  predicate FlagBytes(fields: seq<Field>)
  {
    forall i :: 0 <= i < |fields| && fields[i].beginOptional ==> fields[i].ty == Fixed(1, true)
  }

  /** The field can be part of this row's keys: it is found, and of a type that keys can have. */
  predicate CanBeKey(fields: seq<Field>, vals: seq<Option<Bytes>>, id: nat)
    requires |vals| == |fields|
  {
    Reachable(fields, vals, id) && fields[id].ty.Fixed? && fields[id].ty.sortable
  }

  /** The fields' bytes as a key has them: each with its last byte first. */
  function KeyOf(vals: seq<Option<Bytes>>, ids: seq<nat>): Bytes
    requires forall i :: 0 <= i < |ids| ==> ids[i] < |vals| && vals[ids[i]].Some?
  {
    if ids == [] then [] else Reverse(vals[ids[0]].value) + KeyOf(vals, ids[1..])
  }

  predicate AllCanBeKeys(fields: seq<Field>, vals: seq<Option<Bytes>>, ids: seq<nat>)
    requires |vals| == |fields|
    ensures AllCanBeKeys(fields, vals, ids) ==> forall i :: 0 <= i < |ids| ==> ids[i] < |vals| && vals[ids[i]].Some?
  {
    forall i :: 0 <= i < |ids| ==> CanBeKey(fields, vals, ids[i])
  }

  lemma {:induction false} WidthOf(fields: seq<Field>, vals: seq<Option<Bytes>>, present: bool, i: nat)
    requires LaidOut(fields, vals, present) && FlagBytes(fields) && i < |fields|
    ensures vals[i].Some? && fields[i].ty.Fixed? ==> |vals[i].value| == fields[i].ty.width
  {
    if i > 0 {
      var next :=
        if !present then fields[0].endOptional
        else if fields[0].beginOptional then vals[0].value[0] != 0 else true;
      WidthOf(fields[1..], vals[1..], next, i - 1);
    }
  }

  lemma {:induction false} ExtractExactly(t: Table, vals: seq<Option<Bytes>>, ids: seq<nat>)
    requires LaidOut(t.fields, vals, true) && FlagBytes(t.fields) && Known(t.fields, ids)
    ensures Fields(t, ValueOf(vals)).Some?
    ensures Extract(t.fields, ids, ValueOf(vals), Fields(t, ValueOf(vals)).value.pos)
         == if AllCanBeKeys(t.fields, vals, ids) then Some(KeyOf(vals, ids)) else None
  {
    hide Fields, ValueOf, Reachable, Reverse, LaidOut, OffsetOf, FlagBytes;
    FieldsAreFound(t, vals);
    if ids != [] {
      var id := ids[0];
      assert forall i :: 0 < i < |ids| ==> ids[i] == ids[1..][i - 1];
      ExtractExactly(t, vals, ids[1..]);
      FieldStands(vals, id);
      WidthOf(t.fields, vals, true, id);
      ReachableThere(t.fields, vals, id);
    }
  }

  lemma ReachableThere(fields: seq<Field>, vals: seq<Option<Bytes>>, i: nat)
    requires |vals| == |fields| && i < |fields|
    ensures Reachable(fields, vals, i) ==> vals[i].Some?
  {
  }

  /** The row's key, from its fields: block, table and presence, then the key fields. A row has one exactly if all of
      them are found. */
  lemma RowKeyExactly(sc: Schema, block: u32, name: Name, present: bool, vals: seq<Option<Bytes>>)
    requires name in sc && LaidOut(sc[name].fields, vals, true) && FlagBytes(sc[name].fields)
    ensures RowKey(sc, block, name, present, ValueOf(vals))
         == if AllCanBeKeys(sc[name].fields, vals, sc[name].keys) then
              Some(RowPrefix(block, name, present) + KeyOf(vals, sc[name].keys))
            else None
  {
    hide Extract, Fields, LaidOut, AllCanBeKeys, FlagBytes;
    ExtractExactly(sc[name], vals, sc[name].keys);
  }

  /** The row's entries, from its fields: one for each index, with the index's fields, later blocks before earlier ones.
      */
  lemma EntriesExactly(sc: Schema, block: u32, name: Name, present: bool, vals: seq<Option<Bytes>>)
    requires name in sc && LaidOut(sc[name].fields, vals, true) && FlagBytes(sc[name].fields)
    ensures var t, xs := sc[name], RowEntries(sc, block, name, present, ValueOf(vals));
      && (xs.Some? <==> forall ix :: ix in t.indexes ==> AllCanBeKeys(t.fields, vals, ix.sortKeys))
      && (xs.Some? ==> |xs.value| == |t.indexes|)
      && (xs.Some? ==> forall i :: 0 <= i < |t.indexes| ==>
            && AllCanBeKeys(t.fields, vals, t.indexes[i].sortKeys)
            && xs.value[i] == IndexPrefix(name, t.indexes[i].name) + KeyOf(vals, t.indexes[i].sortKeys)
                              + IndexSuffix(block, present))
  {
    hide Extract, Fields, LaidOut, AllCanBeKeys, FlagBytes, IndexPrefix, IndexSuffix, KeyOf, ValueOf;
    var t, v := sc[name], ValueOf(vals);
    FieldsAreFound(t, vals);
    forall ix | ix in t.indexes ensures EntryIs(t, name, ix, block, present, vals) {
      var i :| 0 <= i < |t.indexes| && t.indexes[i] == ix;
      ExtractExactly(t, vals, ix.sortKeys);
    }
    EntriesFrom(t, name, t.indexes, block, present, vals);
  }

  /** The entry in one index, if there is one. */
  ghost predicate EntryIs(t: Table, name: Name, ix: Index, block: u32, present: bool, vals: seq<Option<Bytes>>)
    requires |vals| == |t.fields| && Known(t.fields, ix.sortKeys) && Fields(t, ValueOf(vals)).Some?
  {
    EntryKey(t, name, ix, block, present, ValueOf(vals), Fields(t, ValueOf(vals)).value.pos)
      == if AllCanBeKeys(t.fields, vals, ix.sortKeys) then
           Some(IndexPrefix(name, ix.name) + KeyOf(vals, ix.sortKeys) + IndexSuffix(block, present))
         else None
  }

  lemma {:induction false} EntriesFrom(t: Table, name: Name, ixs: seq<Index>, block: u32, present: bool,
          vals: seq<Option<Bytes>>)
    requires |vals| == |t.fields| && Fields(t, ValueOf(vals)).Some?
    requires forall i :: 0 <= i < |ixs| ==> Known(t.fields, ixs[i].sortKeys)
    requires forall ix :: ix in ixs ==> Known(t.fields, ix.sortKeys) && EntryIs(t, name, ix, block, present, vals)
    ensures EntryKeys(t, name, ixs, block, present, ValueOf(vals), Fields(t, ValueOf(vals)).value.pos).Some? <==>
      forall ix :: ix in ixs ==> AllCanBeKeys(t.fields, vals, ix.sortKeys)
  {
    hide Fields, AllCanBeKeys, KeyOf, ValueOf, EntryKey, IndexPrefix, IndexSuffix;
    if ixs != [] {
      var n := |ixs| - 1;
      EntriesFrom(t, name, ixs[..n], block, present, vals);
      assert ixs == ixs[..n] + [ixs[n]];
      assert forall ix :: ix in ixs <==> ix in ixs[..n] || ix == ixs[n];
      assert EntryIs(t, name, ixs[n], block, present, vals);
    }
  }
}
