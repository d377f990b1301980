/** Keys of rows and index entries in the database: state_history_kv.hpp. */
module KeyCodec {
  import opened Bytes
  import opened Store

  type u32 = x: int | 0 <= x < 0x1_0000_0000

  /** An eosio name, as its 64-bit value. */
  type Name = x: int | 0 <= x < 0x1_0000_0000_0000_0000

  // ---------- the configured tables ----------

  /** Types of known size, of which some can be part of a key, and types of any size. */
  datatype FieldType = Fixed(width: nat, sortable: bool) | Blob

  datatype Field = Field(ty: FieldType, beginOptional: bool, endOptional: bool)

  /** Keys name fields by their place in the table. */
  datatype Index = Index(name: Name, sortKeys: seq<nat>)

  datatype Table = Table(fields: seq<Field>, keys: seq<nat>, indexes: seq<Index>, isDelta: bool,
          trimIndex: Option<Index>)

  predicate Known(fields: seq<Field>, ids: seq<nat>)
  {
    forall i :: 0 <= i < |ids| ==> ids[i] < |fields|
  }

  /** Every name in the configuration has been found; see query_config.hpp. */
  predicate WfTable(t: Table)
  {
    && Known(t.fields, t.keys)
    && (forall i :: 0 <= i < |t.indexes| ==> Known(t.fields, t.indexes[i].sortKeys))
    && (t.trimIndex.Some? ==> t.trimIndex.value in t.indexes)
  }

  type Schema = sc: map<Name, Table> | forall name :: name in sc ==> WfTable(sc[name]) witness map[]

  // ---------- fields in keys ----------

  /** native_to_key: serialize, then reverse the bytes just written. */
  method NativeToKey(bin: Bytes, obj: nat, w: nat) returns (r: Bytes)
    ensures r == bin + BigEndian(obj, w)
  {
    var s := |bin|;
    r := bin + LittleEndian(obj, w);
    ReverseLittleEndian(obj, w);
    assert r[..s] == bin && r[s..] == LittleEndian(obj, w);
    r := r[..s] + Reverse(r[s..]);
  }

  /** key_to_native: None when the key ends too early. */
  method KeyToNative(b: Bytes, pos: nat, w: nat) returns (r: Option<(nat, nat)>)
    requires pos <= |b|
    ensures r.None? <==> pos + w > |b|
    ensures r.Some? ==> r.value == (Number(b[pos..pos + w]), pos + w)
  {
    if pos + w > |b| {
      return None;
    }
    var v := Reverse(b[pos..pos + w]);
    LittleNumberReverse(b[pos..pos + w]);
    r := Some((LittleNumber(v), pos + w));
  }

  /** The serializer's reading of a number, least significant byte first. */
  function LittleNumber(b: Bytes): nat
  {
    if b == [] then 0 else b[0] + 256 * LittleNumber(b[1..])
  }

  lemma {:induction false} LittleNumberSnoc(b: Bytes, x: byte)
    ensures LittleNumber(b + [x]) == LittleNumber(b) + Times(Pow256(|b|), x)
  {
    if b == [] {
      assert b + [x] == [x] && [x][1..] == [];
    } else {
      LittleNumberSnoc(b[1..], x);
      assert (b + [x])[1..] == b[1..] + [x];
      assert 256 * Times(Pow256(|b| - 1), x) == Times(256 * Pow256(|b| - 1), x);
    }
  }

  function Times(a: nat, b: nat): nat { a * b }

  lemma {:induction false} NumberCons(x: byte, b: Bytes)
    ensures Number([x] + b) == Times(Pow256(|b|), x) + Number(b)
  {
    if b == [] {
      assert [x] + b == [x] && [x][..0] == [];
    } else {
      var n := |b| - 1;
      NumberCons(x, b[..n]);
      assert ([x] + b)[..n + 1] == [x] + b[..n];
      assert 256 * Times(Pow256(n), x) == Times(256 * Pow256(n), x);
    }
  }

  lemma {:induction false} LittleNumberReverse(b: Bytes)
    ensures LittleNumber(Reverse(b)) == Number(b)
  {
    if b != [] {
      LittleNumberReverse(b[1..]);
      LittleNumberSnoc(Reverse(b[1..]), b[0]);
      NumberCons(b[0], b[1..]);
      assert b == [b[0]] + b[1..];
    }
  }

  // ---------- finding the fields of a value or an index key ----------

  /** Offsets of the fields found so far. */
  type Positions = map<nat, nat>

  datatype Scan = Scan(src: nat, present: bool, pos: Positions)

  /** fill_positions_impl: None when the bytes run out. A field of unknown size ends the scan. */
  function Fill(fields: seq<Field>, ids: seq<nat>, b: Bytes, s: Scan): (r: Option<Scan>)
    requires Known(fields, ids)
  {
    if ids == [] then Some(s) else
      var f := fields[ids[0]];
      var pos := if s.present then s.pos[ids[0] := s.src] else s.pos;
      if f.beginOptional then
        if s.src < |b| then Fill(fields, ids[1..], b, Scan(s.src + 1, b[s.src] != 0, pos)) else None
      else if !s.present then
        Fill(fields, ids[1..], b, Scan(s.src, f.endOptional, pos))
      else match f.ty
        case Blob => Some(Scan(s.src, true, pos))
        case Fixed(w, _) => if s.src + w <= |b| then Fill(fields, ids[1..], b, Scan(s.src + w, true, pos)) else None
  }

  method FillPositions(fields: seq<Field>, ids: seq<nat>, b: Bytes, start: nat) returns (r: Option<(nat, Positions)>)
    requires Known(fields, ids)
    ensures r.None? <==> Fill(fields, ids, b, Scan(start, true, map[])).None?
    ensures r.Some? ==> r.value.0 == Fill(fields, ids, b, Scan(start, true, map[])).value.src
    ensures r.Some? ==> r.value.1 == Fill(fields, ids, b, Scan(start, true, map[])).value.pos
  {
    var src: nat, present: bool, pos: Positions := start, true, map[];
    var i := 0;
    while i < |ids|
      invariant i <= |ids|
      invariant Fill(fields, ids, b, Scan(start, true, map[])) == Fill(fields, ids[i..], b, Scan(src, present, pos))
    {
      assert ids[i..][0] == ids[i] && ids[i..][1..] == ids[i + 1..];
      var f := fields[ids[i]];
      if present {
        pos := pos[ids[i] := src];
      }
      if f.beginOptional {
        if src >= |b| {
          return None;
        }
        present := b[src] != 0;
        src := src + 1;
      } else {
        if present {
          if f.ty.Blob? {
            return Some((src, pos));
          }
          if src + f.ty.width > |b| {
            return None;
          }
          src := src + f.ty.width;
        }
        if f.endOptional {
          present := true;
        }
      }
      i := i + 1;
    }
    r := Some((src, pos));
  }

  /** bin_to_key of the field at an offset. */
  function FieldKey(f: Field, v: Bytes, at: nat): (r: Option<Bytes>)
  {
    if f.ty.Fixed? && f.ty.sortable && at + f.ty.width <= |v| then Some(Reverse(v[at..at + f.ty.width])) else None
  }

  /** What extract_keys appends, or None when a field is missing or cannot be a key. */
  function Extract(fields: seq<Field>, ids: seq<nat>, v: Bytes, pos: Positions): (r: Option<Bytes>)
    requires Known(fields, ids)
  {
    if ids == [] then Some([])
    else if ids[0] !in pos then None
    else
      var k := FieldKey(fields[ids[0]], v, pos[ids[0]]);
      if k.None? then None else
        var rest := Extract(fields, ids[1..], v, pos);
        if rest.None? then None else Some(k.value + rest.value)
  }

  method ExtractKeys(dest: Bytes, fields: seq<Field>, ids: seq<nat>, v: Bytes,
          pos: Positions) returns (r: Option<Bytes>)
    requires Known(fields, ids)
    ensures r == match Extract(fields, ids, v, pos) case None => None case Some(k) => Some(dest + k)
  {
    var out := dest;
    var i := 0;
    ghost var all := Extract(fields, ids, v, pos);
    while i < |ids|
      invariant i <= |ids|
      invariant all.None? <==> Extract(fields, ids[i..], v, pos).None?
      invariant all.Some? ==> dest + all.value == out + Extract(fields, ids[i..], v, pos).value
    {
      assert ids[i..][0] == ids[i] && ids[i..][1..] == ids[i + 1..];
      if ids[i] !in pos {
        return None;
      }
      var k := FieldKey(fields[ids[i]], v, pos[ids[i]]);
      if k.None? {
        return None;
      }
      out := out + k.value;
      i := i + 1;
    }
    assert ids[i..] == [] && out + [] == out;
    r := Some(out);
  }

  // ---------- the layout of keys ----------

  const TABLE: byte := 0x50
  const INDEX: byte := 0x60

  function Flag(b: bool): byte { if b then 1 else 0 }

  function RowPrefix(block: u32, name: Name, present: bool): (r: Bytes)
    ensures |r| == 14
  {
    [TABLE] + BigEndian(block, 4) + BigEndian(name, 8) + [Flag(present)]
  }

  function IndexPrefix(name: Name, index: Name): (r: Bytes)
    ensures |r| == 17
  {
    [INDEX] + BigEndian(name, 8) + BigEndian(index, 8)
  }

  /** ~block in 32 bits. */
  function Complement(block: u32): u32 { 0xffff_ffff - block }

  function IndexSuffix(block: u32, present: bool): (r: Bytes)
    ensures |r| == 5
  {
    BigEndian(Complement(block), 4) + [Flag(!present)]
  }

  /** What read_table_prefix finds. */
  function BlockOf(k: Bytes): (r: u32)
    requires 14 <= |k|
  {
    NumberBound4(k[1..5]);
    Number(k[1..5])
  }

  function TableOf(k: Bytes): (r: Name)
    requires 14 <= |k|
  {
    NumberBound8(k[5..13]);
    Number(k[5..13])
  }

  function PresentOf(k: Bytes): bool
    requires 14 <= |k|
  {
    k[13] != 0
  }

  lemma Powers256()
    ensures Pow256(4) == 0x1_0000_0000 && Pow256(8) == 0x1_0000_0000_0000_0000
  {
    assert Pow256(2) == 256 * Pow256(1);
    assert Pow256(4) == 256 * Pow256(3);
    assert Pow256(6) == 256 * Pow256(5);
    assert Pow256(8) == 256 * Pow256(7);
  }

  lemma NumberBound4(b: Bytes)
    requires |b| == 4
    ensures Number(b) < 0x1_0000_0000
  {
    NumberBound(b);
    Powers256();
  }

  lemma NumberBound8(b: Bytes)
    requires |b| == 8
    ensures Number(b) < 0x1_0000_0000_0000_0000
  {
    NumberBound(b);
    Powers256();
  }

  lemma ReadRowPrefix(block: u32, name: Name, present: bool, rest: Bytes)
    ensures BlockOf(RowPrefix(block, name, present) + rest) == block
    ensures TableOf(RowPrefix(block, name, present) + rest) == name
    ensures PresentOf(RowPrefix(block, name, present) + rest) == present
    ensures (RowPrefix(block, name, present) + rest)[0] == TABLE
  {
    var k := RowPrefix(block, name, present) + rest;
    assert k[1..5] == BigEndian(block, 4);
    assert k[5..13] == BigEndian(name, 8);
    Powers256();
    NumberBigEndian(block, 4);
    NumberBigEndian(name, 8);
  }

  // ---------- rows ----------

  /** The offsets of a value's fields, in table order. */
  function AllIds(n: nat): (r: seq<nat>)
    ensures |r| == n && forall i :: 0 <= i < n ==> r[i] == i
  {
    seq(n, i => i)
  }

  function Fields(t: Table, v: Bytes): (r: Option<Scan>)
  {
    Fill(t.fields, AllIds(|t.fields|), v, Scan(0, true, map[]))
  }

  /** The key of a row: the table must be configured and the value hold all its key fields. */
  function RowKey(sc: Schema, block: u32, name: Name, present: bool, v: Bytes): (r: Option<Bytes>)
  {
    if name !in sc then None else
      var s := Fields(sc[name], v);
      if s.None? then None else
        var k := Extract(sc[name].fields, sc[name].keys, v, s.value.pos);
        if k.None? then None else Some(RowPrefix(block, name, present) + k.value)
  }

  /** The entry of a row in one index. */
  function EntryKey(t: Table, name: Name, ix: Index, block: u32, present: bool, v: Bytes,
          pos: Positions): (r: Option<Bytes>)
    requires Known(t.fields, ix.sortKeys)
  {
    var k := Extract(t.fields, ix.sortKeys, v, pos);
    if k.None? then None else Some(IndexPrefix(name, ix.name) + k.value + IndexSuffix(block, present))
  }

  function EntryKeys(t: Table, name: Name, ixs: seq<Index>, block: u32, present: bool, v: Bytes,
          pos: Positions): (r: Option<seq<Bytes>>)
    requires forall i :: 0 <= i < |ixs| ==> Known(t.fields, ixs[i].sortKeys)
    ensures r.Some? ==> |r.value| == |ixs|
    ensures r.Some? ==> forall i :: 0 <= i < |ixs| ==>
      EntryKey(t, name, ixs[i], block, present, v, pos) == Some(r.value[i])
  {
    if ixs == [] then Some([]) else
      var n := |ixs| - 1;
      var init := EntryKeys(t, name, ixs[..n], block, present, v, pos);
      var x := EntryKey(t, name, ixs[n], block, present, v, pos);
      if init.None? || x.None? then None else Some(init.value + [x.value])
  }

  /** All index entries of a row. */
  function RowEntries(sc: Schema, block: u32, name: Name, present: bool, v: Bytes): (r: Option<seq<Bytes>>)
  {
    if name !in sc then None else
      var s := Fields(sc[name], v);
      if s.None? then None else EntryKeys(sc[name], name, sc[name].indexes, block, present, v, s.value.pos)
  }

  // ---------- from an index entry back to the row ----------

  /** What extract_pk copies out of the index key. */
  function CopyKeys(fields: seq<Field>, ids: seq<nat>, x: Bytes, pos: Positions): (r: Option<Bytes>)
    requires Known(fields, ids)
  {
    if ids == [] then Some([])
    else if ids[0] !in pos || fields[ids[0]].ty.Blob? || |x| < pos[ids[0]] + fields[ids[0]].ty.width then None
    else
      var rest := CopyKeys(fields, ids[1..], x, pos);
      if rest.None? then None
      else Some(x[pos[ids[0]]..pos[ids[0]] + fields[ids[0]].ty.width] + rest.value)
  }

  /** extract_pk_from_index. */
  function ExtractPk(t: Table, name: Name, sortKeys: seq<nat>, x: Bytes): (r: Option<Bytes>)
    requires Known(t.fields, t.keys) && Known(t.fields, sortKeys)
  {
    if |x| < 17 then None else
      var s := Fill(t.fields, sortKeys, x, Scan(17, true, map[]));
      if s.None? || |x| < s.value.src + 5 then None else
        var k := CopyKeys(t.fields, t.keys, x, s.value.pos);
        if k.None? then None else
          Some(RowPrefix(SuffixBlock(x, s.value.src), name, SuffixPresent(x, s.value.src)) + k.value)
  }

  /** What read_index_suffix finds. */
  function SuffixBlock(x: Bytes, at: nat): u32
    requires at + 5 <= |x|
  {
    NumberBound4(x[at..at + 4]);
    Complement(Number(x[at..at + 4]))
  }

  function SuffixPresent(x: Bytes, at: nat): bool
    requires at + 5 <= |x|
  {
    x[at + 4] == 0
  }

  method ExtractPkFromIndex(t: Table, name: Name, sortKeys: seq<nat>, x: Bytes) returns (r: Option<Bytes>)
    requires Known(t.fields, t.keys) && Known(t.fields, sortKeys)
    ensures r == ExtractPk(t, name, sortKeys, x)
  {
    if |x| < 17 {
      return None;
    }
    var found := FillPositions(t.fields, sortKeys, x, 17);
    if found.None? {
      return None;
    }
    var at, pos := found.value.0, found.value.1;
    if |x| < at + 5 {
      return None;
    }
    var k := CopyFields(t.fields, t.keys, x, pos);
    if k.None? {
      return None;
    }
    r := Some(RowPrefix(SuffixBlock(x, at), name, SuffixPresent(x, at)) + k.value);
  }

  method CopyFields(fields: seq<Field>, ids: seq<nat>, x: Bytes, pos: Positions) returns (r: Option<Bytes>)
    requires Known(fields, ids)
    ensures r == CopyKeys(fields, ids, x, pos)
  {
    var out := [];
    var i := 0;
    ghost var all := CopyKeys(fields, ids, x, pos);
    while i < |ids|
      invariant i <= |ids|
      invariant all.None? <==> CopyKeys(fields, ids[i..], x, pos).None?
      invariant all.Some? ==> all.value == out + CopyKeys(fields, ids[i..], x, pos).value
    {
      assert ids[i..][0] == ids[i] && ids[i..][1..] == ids[i + 1..];
      var id := ids[i];
      if id !in pos || fields[id].ty.Blob? || |x| < pos[id] + fields[id].ty.width {
        return None;
      }
      out := out + x[pos[id]..pos[id] + fields[id].ty.width];
      i := i + 1;
    }
    assert ids[i..] == [] && out + [] == out;
    r := Some(out);
  }

  /** The width of a key made of these fields. */
  function KeyWidth(fields: seq<Field>, ids: seq<nat>): nat
    requires Known(fields, ids)
  {
    if ids == [] then 0
    else (if fields[ids[0]].ty.Fixed? then fields[ids[0]].ty.width else 0) + KeyWidth(fields, ids[1..])
  }

  lemma {:induction false} ExtractWidth(fields: seq<Field>, ids: seq<nat>, v: Bytes, pos: Positions)
    requires Known(fields, ids) && Extract(fields, ids, v, pos).Some?
    ensures |Extract(fields, ids, v, pos).value| == KeyWidth(fields, ids)
  {
    if ids != [] {
      ExtractWidth(fields, ids[1..], v, pos);
    }
  }

  /** The flag of an optional field that a value does not have. */
  predicate ZeroFlag(fields: seq<Field>, v: Bytes, vpos: Positions, id: nat)
  {
    id < |fields| && fields[id].beginOptional && id in vpos && vpos[id] < |v| && v[vpos[id]] == 0
  }

  /** The scan of an entry records the sort key at i: it does not follow a zero flag. */
  predicate Shown(fields: seq<Field>, ids: seq<nat>, v: Bytes, vpos: Positions, i: nat)
  {
    i == 0 || i > |ids| || !ZeroFlag(fields, v, vpos, ids[i - 1])
  }

  /** The scan skips every sort key: after a zero flag comes another flag, or nothing. */
  predicate Aligned(fields: seq<Field>, ids: seq<nat>, v: Bytes, vpos: Positions)
    requires Known(fields, ids)
  {
    forall i :: 0 <= i < |ids| && !Shown(fields, ids, v, vpos, i) ==> fields[ids[i]].beginOptional
  }

  /** A field is recorded at one of its places among the sort keys. */
  predicate Recorded(fields: seq<Field>, ids: seq<nat>, v: Bytes, vpos: Positions, id: nat)
  {
    exists i :: 0 <= i < |ids| && ids[i] == id && Shown(fields, ids, v, vpos, i)
  }

  /** What a caller can see in the flags of a value and the order of the sort keys: whether its entry leads back. */
  predicate LeadsBack(t: Table, ids: seq<nat>, v: Bytes, vpos: Positions)
    requires Known(t.fields, ids)
  {
    Aligned(t.fields, ids, v, vpos) && forall id :: id in t.keys ==> Recorded(t.fields, ids, v, vpos, id)
  }

  /** Flags are one byte, as bin_to_native<bool> reads them. */
  predicate FlagsAreBytes(fields: seq<Field>, ids: seq<nat>)
    requires Known(fields, ids)
  {
    forall i :: 0 <= i < |ids| && fields[ids[i]].beginOptional ==> fields[ids[i]].ty == Fixed(1, true)
  }

  /** Field id, at its place in x, has the bytes extract_keys made of it. */
  predicate SameField(fields: seq<Field>, x: Bytes, pos: Positions, v: Bytes, vpos: Positions, id: nat)
  {
    && id in pos && id in vpos && id < |fields|
    && FieldKey(fields[id], v, vpos[id]).Some?
    && pos[id] + fields[id].ty.width <= |x|
    && x[pos[id]..pos[id] + fields[id].ty.width] == FieldKey(fields[id], v, vpos[id]).value
  }

  predicate AllFound(fields: seq<Field>, x: Bytes, pos: Positions, v: Bytes, vpos: Positions)
  {
    forall id :: id in pos ==> SameField(fields, x, pos, v, vpos, id)
  }

  lemma FirstFieldFound(fields: seq<Field>, ids: seq<nat>, x: Bytes, s: Scan, v: Bytes, vpos: Positions)
    requires Known(fields, ids) && ids != [] && Extract(fields, ids, v, vpos).Some?
    requires s.src + |Extract(fields, ids, v, vpos).value| <= |x|
    requires x[s.src..s.src + |Extract(fields, ids, v, vpos).value|] == Extract(fields, ids, v, vpos).value
    requires AllFound(fields, x, s.pos, v, vpos)
    ensures var id := ids[0]; var rest := Extract(fields, ids[1..], v, vpos);
      && fields[id].ty.Fixed? && rest.Some? && var at := s.src + fields[id].ty.width;
      && at + |rest.value| == s.src + |Extract(fields, ids, v, vpos).value|
      && x[at..at + |rest.value|] == rest.value
      && AllFound(fields, x, s.pos[id := s.src], v, vpos)
  {
    hide Reverse;
    var id := ids[0];
    var w := fields[id].ty.width;
    var k := Extract(fields, ids, v, vpos).value;
    var rest := Extract(fields, ids[1..], v, vpos).value;
    assert k[..w] == FieldKey(fields[id], v, vpos[id]).value && k[w..] == rest;
    assert x[s.src..s.src + w] == x[s.src..s.src + |k|][..w];
    assert x[s.src + w..s.src + w + |rest|] == x[s.src..s.src + |k|][w..];
    var pos' := s.pos[id := s.src];
    forall j | j in pos' ensures SameField(fields, x, pos', v, vpos, j) {
      if j != id { assert SameField(fields, x, s.pos, v, vpos, j); }
    }
  }

  /** The scan of an entry after it has skipped sort key i. */
  function Skipped(fields: seq<Field>, ids: seq<nat>, i: nat, s: Scan, v: Bytes, vpos: Positions): Scan
    requires Known(fields, ids) && i < |ids|
  {
    var id := ids[i];
    Scan(s.src + (if fields[id].ty.Fixed? then fields[id].ty.width else 0), Shown(fields, ids, v, vpos, i + 1),
         if s.present then s.pos[id := s.src] else s.pos)
  }

  /** One step of the scan of an entry. */
  lemma ScanStep(fields: seq<Field>, ids: seq<nat>, i: nat, x: Bytes, s: Scan, v: Bytes, vpos: Positions)
    requires Known(fields, ids) && i < |ids| && FlagsAreBytes(fields, ids) && Extract(fields, ids[i..], v, vpos).Some?
    requires s.src + |Extract(fields, ids[i..], v, vpos).value| <= |x|
    requires x[s.src..s.src + |Extract(fields, ids[i..], v, vpos).value|] == Extract(fields, ids[i..], v, vpos).value
    requires s.present == Shown(fields, ids, v, vpos, i) && (s.present || fields[ids[i]].beginOptional)
    requires AllFound(fields, x, s.pos, v, vpos)
    ensures var s' := Skipped(fields, ids, i, s, v, vpos);
      && fields[ids[i]].ty.Fixed? && Fill(fields, ids[i..], x, s) == Fill(fields, ids[i + 1..], x, s')
      && AllFound(fields, x, s'.pos, v, vpos) && var rest := Extract(fields, ids[i + 1..], v, vpos);
      && rest.Some? && s'.src + |rest.value| == s.src + |Extract(fields, ids[i..], v, vpos).value|
      && x[s'.src..s'.src + |rest.value|] == rest.value
  {
    hide AllFound;
    var id := ids[i];
    assert ids[i..][0] == id && ids[i..][1..] == ids[i + 1..];
    assert Known(fields, ids[i..]);
    FirstFieldFound(fields, ids[i..], x, s, v, vpos);
    if fields[id].beginOptional {
      OneByte(v, vpos[id]);
      assert x[s.src] == x[s.src..s.src + |Extract(fields, ids[i..], v, vpos).value|][0] == v[vpos[id]];
    }
  }

  lemma OneByte(v: Bytes, at: nat)
    requires at < |v|
    ensures Reverse(v[at..at + 1]) == [v[at]]
  {
    assert v[at..at + 1][1..] == [];
  }

  lemma {:induction false} CopyIsExtract(fields: seq<Field>, ids: seq<nat>, x: Bytes, pos: Positions, v: Bytes,
          vpos: Positions)
    requires Known(fields, ids)
    requires forall id :: id in ids ==> SameField(fields, x, pos, v, vpos, id)
    ensures CopyKeys(fields, ids, x, pos) == Extract(fields, ids, v, vpos)
  {
    if ids != [] {
      assert SameField(fields, x, pos, v, vpos, ids[0]);
      CopyIsExtract(fields, ids[1..], x, pos, v, vpos);
    }
  }

  /** An index that rows can be found from: it has all key fields and none that says whether others follow. */
  predicate Covers(t: Table, sortKeys: seq<nat>)
    requires Known(t.fields, sortKeys)
  {
    && (forall i :: 0 <= i < |sortKeys| ==> !t.fields[sortKeys[i]].beginOptional)
    && (forall id :: id in t.keys ==> id in sortKeys)
  }

  predicate RecordedFrom(fields: seq<Field>, ids: seq<nat>, v: Bytes, vpos: Positions, i: nat, id: nat)
  {
    exists j :: i <= j < |ids| && ids[j] == id && Shown(fields, ids, v, vpos, j)
  }

  lemma RecordedStep(fields: seq<Field>, ids: seq<nat>, v: Bytes, vpos: Positions, i: nat, id: nat)
    requires i < |ids|
    ensures RecordedFrom(fields, ids, v, vpos, i, id) <==>
      (ids[i] == id && Shown(fields, ids, v, vpos, i)) || RecordedFrom(fields, ids, v, vpos, i + 1, id)
  {
    hide Shown;
    if RecordedFrom(fields, ids, v, vpos, i, id) {
      var j :| i <= j < |ids| && ids[j] == id && Shown(fields, ids, v, vpos, j);
      assert j == i || i + 1 <= j;
    }
  }

  /** Scanning the aligned sort keys of an entry finds the fields that do not follow a zero flag, and stops where the
      suffix begins. */
  lemma {:induction false} AlignedScan(fields: seq<Field>, ids: seq<nat>, i: nat, x: Bytes, s: Scan, v: Bytes,
          vpos: Positions)
    requires Known(fields, ids) && i <= |ids| && FlagsAreBytes(fields, ids) && Aligned(fields, ids, v, vpos)
    requires Extract(fields, ids[i..], v, vpos).Some?
    requires s.src + |Extract(fields, ids[i..], v, vpos).value| <= |x|
    requires x[s.src..s.src + |Extract(fields, ids[i..], v, vpos).value|] == Extract(fields, ids[i..], v, vpos).value
    requires s.present == Shown(fields, ids, v, vpos, i) && AllFound(fields, x, s.pos, v, vpos)
    ensures var r := Fill(fields, ids[i..], x, s);
      && r.Some? && r.value.src == s.src + |Extract(fields, ids[i..], v, vpos).value|
      && AllFound(fields, x, r.value.pos, v, vpos)
      && forall id :: id in r.value.pos <==> id in s.pos || RecordedFrom(fields, ids, v, vpos, i, id)
    decreases |ids| - i
  {
    hide AllFound, Shown, FieldKey, FlagsAreBytes, RecordedFrom;
    if i < |ids| {
      ScanStep(fields, ids, i, x, s, v, vpos);
      AlignedScan(fields, ids, i + 1, x, Skipped(fields, ids, i, s, v, vpos), v, vpos);
      forall j { RecordedStep(fields, ids, v, vpos, i, j); }
    } else {
      forall j { RecordedNone(fields, ids, v, vpos, i, j); }
    }
  }

  lemma RecordedNone(fields: seq<Field>, ids: seq<nat>, v: Bytes, vpos: Positions, i: nat, id: nat)
    requires i >= |ids|
    ensures !RecordedFrom(fields, ids, v, vpos, i, id)
  {
  }

  /** The entry of a row, and the scan of it. */
  lemma ScanEntry(t: Table, name: Name, ix: Index, block: u32, present: bool, v: Bytes, vpos: Positions)
    requires Known(t.fields, ix.sortKeys) && FlagsAreBytes(t.fields, ix.sortKeys)
    requires Aligned(t.fields, ix.sortKeys, v, vpos) && EntryKey(t, name, ix, block, present, v, vpos).Some?
    ensures var x := EntryKey(t, name, ix, block, present, v, vpos).value;
      var r := Fill(t.fields, ix.sortKeys, x, Scan(17, true, map[]));
      && r.Some? && r.value.src + 5 == |x| && AllFound(t.fields, x, r.value.pos, v, vpos)
      && (forall id :: id in r.value.pos <==> Recorded(t.fields, ix.sortKeys, v, vpos, id))
      && SuffixBlock(x, r.value.src) == block && SuffixPresent(x, r.value.src) == present
  {
    hide Shown, FlagsAreBytes, AllFound;
    var k := Extract(t.fields, ix.sortKeys, v, vpos).value;
    var x := IndexPrefix(name, ix.name) + k + IndexSuffix(block, present);
    assert ix.sortKeys[0..] == ix.sortKeys;
    assert x[17..17 + |k|] == k;
    NothingFound(t.fields, x, v, vpos);
    ShownFirst(t.fields, ix.sortKeys, v, vpos);
    AlignedScan(t.fields, ix.sortKeys, 0, x, Scan(17, true, map[]), v, vpos);
    ReadSuffix(IndexPrefix(name, ix.name) + k, block, present);
    forall id { RecordedIsFrom(t.fields, ix.sortKeys, v, vpos, id); }
  }

  lemma RecordedIsFrom(fields: seq<Field>, ids: seq<nat>, v: Bytes, vpos: Positions, id: nat)
    ensures Recorded(fields, ids, v, vpos, id) <==> RecordedFrom(fields, ids, v, vpos, 0, id)
  {
    hide Shown;
  }

  lemma ShownFirst(fields: seq<Field>, ids: seq<nat>, v: Bytes, vpos: Positions)
    ensures Shown(fields, ids, v, vpos, 0)
  {
  }

  lemma NothingFound(fields: seq<Field>, x: Bytes, v: Bytes, vpos: Positions)
    ensures AllFound(fields, x, map[], v, vpos)
  {
  }

  /** An aligned entry leads to its row, if all key fields are recorded, and otherwise nowhere. */
  lemma AlignedLeads(t: Table, name: Name, ix: Index, block: u32, present: bool, v: Bytes, vpos: Positions)
    requires Known(t.fields, t.keys) && Known(t.fields, ix.sortKeys) && FlagsAreBytes(t.fields, ix.sortKeys)
    requires Aligned(t.fields, ix.sortKeys, v, vpos) && EntryKey(t, name, ix, block, present, v, vpos).Some?
    requires Extract(t.fields, t.keys, v, vpos).Some?
    ensures var x := EntryKey(t, name, ix, block, present, v, vpos).value;
      ExtractPk(t, name, ix.sortKeys, x) ==
        if LeadsBack(t, ix.sortKeys, v, vpos) then
          Some(RowPrefix(block, name, present) + Extract(t.fields, t.keys, v, vpos).value)
        else None
  {
    hide Recorded, Aligned, FlagsAreBytes, Fill, SuffixBlock, SuffixPresent;
    var x := EntryKey(t, name, ix, block, present, v, vpos).value;
    ScanEntry(t, name, ix, block, present, v, vpos);
    var pos := Fill(t.fields, ix.sortKeys, x, Scan(17, true, map[])).value.pos;
    if LeadsBack(t, ix.sortKeys, v, vpos) {
      CopyIsExtract(t.fields, t.keys, x, pos, v, vpos);
    } else {
      var id :| id in t.keys && !Recorded(t.fields, ix.sortKeys, v, vpos, id);
      CopyNeeds(t.fields, t.keys, x, pos, id);
    }
  }

  /** extract_pk throws for a key field that has not been recorded. */
  lemma {:induction false} CopyNeeds(fields: seq<Field>, ids: seq<nat>, x: Bytes, pos: Positions, id: nat)
    requires Known(fields, ids) && id in ids && id !in pos
    ensures CopyKeys(fields, ids, x, pos) == None
  {
    if ids[0] != id {
      CopyNeeds(fields, ids[1..], x, pos, id);
    }
  }

  /** From the entry a row has in an index, extract_pk_from_index gives back the row's key. */
  lemma EntryLeadsToRow(sc: Schema, name: Name, ix: Index, block: u32, present: bool, v: Bytes)
    requires name in sc && ix in sc[name].indexes && Covers(sc[name], ix.sortKeys)
    requires RowKey(sc, block, name, present, v).Some?
    requires EntryKey(sc[name], name, ix, block, present, v, Fields(sc[name], v).value.pos).Some?
    ensures ExtractPk(sc[name], name, ix.sortKeys,
      EntryKey(sc[name], name, ix, block, present, v, Fields(sc[name], v).value.pos).value)
         == RowKey(sc, block, name, present, v)
  {
    hide ExtractPk, Fill, Extract;
    var t, vpos := sc[name], Fields(sc[name], v).value.pos;
    forall id | id in t.keys ensures Recorded(t.fields, ix.sortKeys, v, vpos, id) {
      var i :| 0 <= i < |ix.sortKeys| && ix.sortKeys[i] == id;
      assert Shown(t.fields, ix.sortKeys, v, vpos, i);
    }
    AlignedLeads(t, name, ix, block, present, v, vpos);
  }

  lemma ReadSuffix(p: Bytes, block: u32, present: bool)
    ensures SuffixBlock(p + IndexSuffix(block, present), |p|) == block
    ensures SuffixPresent(p + IndexSuffix(block, present), |p|) == present
  {
    var x := p + IndexSuffix(block, present);
    assert x[|p|..|p| + 4] == BigEndian(Complement(block), 4);
    Powers256();
    NumberBigEndian(Complement(block), 4);
  }

  // ---------- order ----------

  /** The numbers in the key fields of a value, as the serializer reads them. */
  ghost function KeyNumbers(fields: seq<Field>, ids: seq<nat>, v: Bytes, pos: Positions): (r: seq<nat>)
    requires Known(fields, ids) && Extract(fields, ids, v, pos).Some?
    ensures |r| == |ids|
  {
    if ids == [] then [] else
      var at := pos[ids[0]];
      [LittleNumber(v[at..at + fields[ids[0]].ty.width])] + KeyNumbers(fields, ids[1..], v, pos)
  }

  ghost predicate TupleLess(a: seq<nat>, b: seq<nat>)
    requires |a| == |b|
  {
    a != [] && (a[0] < b[0] || (a[0] == b[0] && TupleLess(a[1..], b[1..])))
  }

  lemma {:induction false} ReverseReverse(b: Bytes)
    ensures Reverse(Reverse(b)) == b
  {
    if b != [] {
      ReverseSnoc(Reverse(b[1..]), b[0]);
      ReverseReverse(b[1..]);
    }
  }

  lemma {:induction false} ReverseSnoc(b: Bytes, x: byte)
    ensures Reverse(b + [x]) == [x] + Reverse(b)
  {
    if b == [] {
      assert b + [x] == [x] && [x][1..] == [];
    } else {
      ReverseSnoc(b[1..], x);
      assert (b + [x])[1..] == b[1..] + [x];
    }
  }

  /** One field of a key, read as a number. */
  lemma FieldKeyNumber(f: Field, v: Bytes, at: nat)
    requires FieldKey(f, v, at).Some?
    ensures Number(FieldKey(f, v, at).value) == LittleNumber(v[at..at + f.ty.width])
  {
    var b := v[at..at + f.ty.width];
    LittleNumberReverse(Reverse(b));
    ReverseReverse(b);
  }

  lemma FieldKeyEncodes(f: Field, v: Bytes, at: nat)
    requires FieldKey(f, v, at).Some?
    ensures FieldKey(f, v, at).value == BigEndian(LittleNumber(v[at..at + f.ty.width]), f.ty.width)
  {
    hide Reverse, Number, LittleNumber, BigEndian;
    FieldKeyNumber(f, v, at);
    FieldKeyWidth(f, v, at);
    BigEndianNumber(FieldKey(f, v, at).value);
  }

  /** Numbers as the fields of a key, each in the width of its field. */
  function Encoded(fields: seq<Field>, ids: seq<nat>, ns: seq<nat>): Bytes
    requires Known(fields, ids) && |ns| == |ids|
  {
    if ids == [] then []
    else
      BigEndian(ns[0], if fields[ids[0]].ty.Fixed? then fields[ids[0]].ty.width else 0)
        + Encoded(fields, ids[1..], ns[1..])
  }

  /** The first field of a key, as bytes and as a number. */
  lemma FirstKeyField(fields: seq<Field>, ids: seq<nat>, v: Bytes, pos: Positions)
    requires Known(fields, ids) && ids != [] && Extract(fields, ids, v, pos).Some?
    ensures ids[0] in pos && FieldKey(fields[ids[0]], v, pos[ids[0]]).Some? && Extract(fields, ids[1..], v, pos).Some?
    ensures Extract(fields, ids, v, pos).value
         == FieldKey(fields[ids[0]], v, pos[ids[0]]).value + Extract(fields, ids[1..], v, pos).value
  {
    hide FieldKey;
  }

  lemma KeyParts(fields: seq<Field>, ids: seq<nat>, v: Bytes, pos: Positions)
    requires Known(fields, ids) && ids != [] && Extract(fields, ids, v, pos).Some?
    ensures Extract(fields, ids[1..], v, pos).Some? && ids[0] in pos && FieldKey(fields[ids[0]], v, pos[ids[0]]).Some?
    ensures KeyNumbers(fields, ids, v, pos)
         == [Number(FieldKey(fields[ids[0]], v, pos[ids[0]]).value)] + KeyNumbers(fields, ids[1..], v, pos)
  {
    hide Number, LittleNumber, FieldKey, Extract;
    FirstKeyField(fields, ids, v, pos);
    FieldKeyNumber(fields[ids[0]], v, pos[ids[0]]);
  }

  lemma FieldKeyWidth(f: Field, v: Bytes, at: nat)
    requires FieldKey(f, v, at).Some?
    ensures f.ty.Fixed? && |FieldKey(f, v, at).value| == f.ty.width
  {
  }

  /** A key is its numbers, each in the width of its field. */
  lemma {:induction false} ExtractEncodes(fields: seq<Field>, ids: seq<nat>, v: Bytes, pos: Positions)
    requires Known(fields, ids) && Extract(fields, ids, v, pos).Some?
    ensures Extract(fields, ids, v, pos).value == Encoded(fields, ids, KeyNumbers(fields, ids, v, pos))
  {
    hide FieldKey, LittleNumber, Number, BigEndian;
    if ids != [] {
      var f, at := fields[ids[0]], pos[ids[0]];
      FirstKeyField(fields, ids, v, pos);
      ExtractEncodes(fields, ids[1..], v, pos);
      FieldKeyEncodes(f, v, at);
      FieldKeyWidth(f, v, at);
    }
  }

  /** Keys of any number of fields are in the order of the tuples they encode. */
  lemma {:induction false} KeyOrder(fields: seq<Field>, ids: seq<nat>, v: Bytes, pos: Positions, v': Bytes,
          pos': Positions)
    requires Known(fields, ids)
    requires Extract(fields, ids, v, pos).Some? && Extract(fields, ids, v', pos').Some?
    ensures |Extract(fields, ids, v, pos).value| == |Extract(fields, ids, v', pos').value|
    ensures Less(Extract(fields, ids, v, pos).value, Extract(fields, ids, v', pos').value)
       <==> TupleLess(KeyNumbers(fields, ids, v, pos), KeyNumbers(fields, ids, v', pos'))
    ensures Extract(fields, ids, v, pos) == Extract(fields, ids, v', pos')
       <==> KeyNumbers(fields, ids, v, pos) == KeyNumbers(fields, ids, v', pos')
  {
    hide Less, Number, LittleNumber, TupleLess, FieldKey;
    if ids == [] {
      LessIrreflexive([]);
      NoTuple();
    } else {
      FirstKeyField(fields, ids, v, pos);
      FirstKeyField(fields, ids, v', pos');
      KeyParts(fields, ids, v, pos);
      KeyParts(fields, ids, v', pos');
      FieldKeyWidth(fields[ids[0]], v, pos[ids[0]]);
      FieldKeyWidth(fields[ids[0]], v', pos'[ids[0]]);
      KeyOrder(fields, ids[1..], v, pos, v', pos');
      var a, b := FieldKey(fields[ids[0]], v, pos[ids[0]]).value, FieldKey(fields[ids[0]], v', pos'[ids[0]]).value;
      PairOrder(a, Extract(fields, ids[1..], v, pos).value, b, Extract(fields, ids[1..], v', pos').value);
      TupleCons(Number(a), KeyNumbers(fields, ids[1..], v, pos), Number(b), KeyNumbers(fields, ids[1..], v', pos'));
    }
  }

  lemma NoTuple()
    ensures !TupleLess([], [])
  {
  }

  lemma PairOrder(a: Bytes, a': Bytes, b: Bytes, b': Bytes)
    requires |a| == |b|
    ensures Less(a + a', b + b') <==> Number(a) < Number(b) || (Number(a) == Number(b) && Less(a', b'))
    ensures a + a' == b + b' <==> Number(a) == Number(b) && a' == b'
  {
    LessConcat(a, a', b, b');
    NumberOrder(a, b);
    NumberInjective(a, b);
    assert a == (a + a')[..|a|] && b == (b + b')[..|a|] && a' == (a + a')[|a|..] && b' == (b + b')[|a|..];
  }

  lemma TupleCons(x: nat, n: seq<nat>, y: nat, n': seq<nat>)
    requires |n| == |n'|
    ensures TupleLess([x] + n, [y] + n') <==> x < y || (x == y && TupleLess(n, n'))
    ensures [x] + n == [y] + n' <==> x == y && n == n'
  {
    assert ([x] + n)[1..] == n && ([y] + n')[1..] == n';
    assert ([x] + n)[0] == x && ([y] + n')[0] == y;
  }

  /** Suffixes put later blocks first, and a present row before an absent one of the same block. */
  predicate Newer(block: nat, present: bool, block': nat, present': bool)
  {
    block > block' || (block == block' && present && !present')
  }

  lemma EntryOrder(p: Bytes, block: u32, present: bool, p': Bytes, block': u32, present': bool)
    requires |p| == |p'|
    ensures Less(p + IndexSuffix(block, present), p' + IndexSuffix(block', present'))
       <==> Less(p, p') || (p == p' && Newer(block, present, block', present'))
  {
    LessConcat(p, IndexSuffix(block, present), p', IndexSuffix(block', present'));
    var c, c' := BigEndian(Complement(block), 4), BigEndian(Complement(block'), 4);
    PairOrder(c, [Flag(!present)], c', [Flag(!present')]);
    assert Less([Flag(!present)], [Flag(!present')]) <==> present && !present';
    Powers256();
    NumberBigEndian(Complement(block), 4);
    NumberBigEndian(Complement(block'), 4);
  }

  /** Rows are in the order of their blocks, then tables, then absent before present, then key fields. */
  lemma RowOrder(block: u32, name: Name, present: bool, k: Bytes, block': u32, name': Name, present': bool, k': Bytes)
    ensures Less(RowPrefix(block, name, present) + k, RowPrefix(block', name', present') + k')
       <==> block < block' || (block == block' && (name < name' || (name == name' &&
              ((!present && present') || (present == present' && Less(k, k'))))))
  {
    hide *;
    var f, f' := [Flag(present)] + k, [Flag(present')] + k';
    Powers256();
    RowParts(block, name, present, k);
    RowParts(block', name', present', k');
    FieldOrder(block, 4, BigEndian(name, 8) + f, block', BigEndian(name', 8) + f');
    FieldOrder(name, 8, f, name', f');
    FlagOrder(present, k, present', k');
    TagOrder(BigEndian(block, 4) + (BigEndian(name, 8) + f), BigEndian(block', 4) + (BigEndian(name', 8) + f'));
  }

  lemma RowParts(block: u32, name: Name, present: bool, k: Bytes)
    ensures RowPrefix(block, name, present) + k
         == [TABLE] + (BigEndian(block, 4) + (BigEndian(name, 8) + ([Flag(present)] + k)))
  {
  }

  lemma TagOrder(a: Bytes, b: Bytes)
    ensures Less([TABLE] + a, [TABLE] + b) <==> Less(a, b)
  {
    assert ([TABLE] + a)[1..] == a && ([TABLE] + b)[1..] == b;
  }

  lemma FlagOrder(p: bool, k: Bytes, p': bool, k': Bytes)
    ensures Less([Flag(p)] + k, [Flag(p')] + k') <==> (!p && p') || (p == p' && Less(k, k'))
  {
    assert ([Flag(p)] + k)[1..] == k && ([Flag(p')] + k')[1..] == k';
  }

  lemma FieldOrder(n: nat, w: nat, a: Bytes, n': nat, a': Bytes)
    requires n < Pow256(w) && n' < Pow256(w)
    ensures Less(BigEndian(n, w) + a, BigEndian(n', w) + a') <==> n < n' || (n == n' && Less(a, a'))
  {
    hide Less, BigEndian, Number, Pow256;
    PairOrder(BigEndian(n, w), a, BigEndian(n', w), a');
    NumberBigEndian(n, w);
    NumberBigEndian(n', w);
  }

  // ---------- exactly when an entry leads to its row ----------

  predicate WidthsArePositive(fields: seq<Field>, ids: seq<nat>)
    requires Known(fields, ids)
  {
    forall i :: 0 <= i < |ids| && fields[ids[i]].ty.Fixed? ==> 0 < fields[ids[i]].ty.width
  }

  /** A scan goes no farther than the widths of its fields, and sees nothing beyond. */
  lemma {:induction false} ShortScan(fields: seq<Field>, ids: seq<nat>, x: Bytes, x': Bytes, s: Scan, end: nat)
    requires Known(fields, ids) && FlagsAreBytes(fields, ids) && (forall id :: id in ids ==> fields[id].ty.Fixed?)
    requires s.src + KeyWidth(fields, ids) <= end <= |x| && end <= |x'| && x[..end] == x'[..end]
    ensures var r := Fill(fields, ids, x, s);
      r == Fill(fields, ids, x', s) && r.Some? && r.value.src <= s.src + KeyWidth(fields, ids)
  {
    if ids != [] {
      var f := fields[ids[0]];
      var pos := if s.present then s.pos[ids[0] := s.src] else s.pos;
      if f.beginOptional {
        assert x[s.src] == x[..end][s.src] && x'[s.src] == x'[..end][s.src];
        ShortScan(fields, ids[1..], x, x', Scan(s.src + 1, x[s.src] != 0, pos), end);
      } else if !s.present {
        ShortScan(fields, ids[1..], x, x', Scan(s.src, f.endOptional, pos), end);
      } else {
        ShortScan(fields, ids[1..], x, x', Scan(s.src + f.ty.width, true, pos), end);
      }
    }
  }

  lemma {:induction false} AllFixed(fields: seq<Field>, ids: seq<nat>, v: Bytes, vpos: Positions)
    requires Known(fields, ids) && Extract(fields, ids, v, vpos).Some?
    ensures forall id :: id in ids ==> fields[id].ty.Fixed?
  {
    if ids != [] {
      AllFixed(fields, ids[1..], v, vpos);
      assert forall id :: id in ids ==> id == ids[0] || id in ids[1..];
    }
  }

  /** The scan has skipped everything up to sort key i, but there is a later one that it does not skip. */
  ghost predicate Astray(fields: seq<Field>, ids: seq<nat>, i: nat, x: Bytes, s: Scan, v: Bytes, vpos: Positions,
          end: nat)
    requires Known(fields, ids) && i <= |ids|
  {
    var k := Extract(fields, ids[i..], v, vpos);
    && FlagsAreBytes(fields, ids) && k.Some? && s.src + |k.value| == end <= |x| && x[s.src..end] == k.value
    && s.present == Shown(fields, ids, v, vpos, i) && AllFound(fields, x, s.pos, v, vpos)
    && exists j :: i <= j < |ids| && Skips(fields, ids, v, vpos, j)
  }

  predicate Skips(fields: seq<Field>, ids: seq<nat>, v: Bytes, vpos: Positions, j: nat)
    requires Known(fields, ids) && j < |ids|
  {
    !Shown(fields, ids, v, vpos, j) && !fields[ids[j]].beginOptional
  }

  lemma AstrayStep(fields: seq<Field>, ids: seq<nat>, i: nat, x: Bytes, s: Scan, v: Bytes, vpos: Positions, end: nat)
    requires Known(fields, ids) && i <= |ids| && Astray(fields, ids, i, x, s, v, vpos, end)
    requires i == |ids| || !Skips(fields, ids, v, vpos, i)
    ensures i < |ids|
    ensures var s' := Skipped(fields, ids, i, s, v, vpos);
      Astray(fields, ids, i + 1, x, s', v, vpos, end)
        && Fill(fields, ids[i..], x, s) == Fill(fields, ids[i + 1..], x, s')
  {
    hide Shown, AllFound, FlagsAreBytes, Fill, Extract;
    var j :| i <= j < |ids| && Skips(fields, ids, v, vpos, j);
    assert i < |ids|;
    ScanStep(fields, ids, i, x, s, v, vpos);
  }

  /** Where the scan first does not skip a sort key. */
  lemma AstrayHere(fields: seq<Field>, ids: seq<nat>, i: nat, x: Bytes, s: Scan, v: Bytes, vpos: Positions, end: nat)
    requires Known(fields, ids) && i < |ids| && Astray(fields, ids, i, x, s, v, vpos, end)
      && Skips(fields, ids, v, vpos, i)
    ensures var f := fields[ids[i]]; var s' := Scan(s.src, f.endOptional, s.pos);
      && f.ty.Fixed? && Fill(fields, ids[i..], x, s) == Fill(fields, ids[i + 1..], x, s')
      && s.src + f.ty.width + KeyWidth(fields, ids[i + 1..]) == end
      && forall id :: id in ids[i + 1..] ==> fields[id].ty.Fixed?
  {
    hide AllFound, FlagsAreBytes;
    assert ids[i..][0] == ids[i] && ids[i..][1..] == ids[i + 1..];
    ExtractWidth(fields, ids[i..], v, vpos);
    AllFixed(fields, ids[i + 1..], v, vpos);
  }

  /** A scan that goes astray stops before the suffix, and in the same place whatever the suffix is. */
  lemma {:induction false} AstrayStopsShort(fields: seq<Field>, ids: seq<nat>, i: nat, x: Bytes, x': Bytes, s: Scan,
          v: Bytes, vpos: Positions, end: nat)
    requires Known(fields, ids) && i <= |ids| && WidthsArePositive(fields, ids)
    requires Astray(fields, ids, i, x, s, v, vpos, end) && Astray(fields, ids, i, x', s, v, vpos, end)
      && x[..end] == x'[..end]
    ensures var r := Fill(fields, ids[i..], x, s); r == Fill(fields, ids[i..], x', s) && r.Some? && r.value.src < end
    decreases |ids| - i
  {
    hide Shown, Astray, Fill, Extract, FlagsAreBytes;
    if i < |ids| && Skips(fields, ids, v, vpos, i) {
      AstrayHere(fields, ids, i, x, s, v, vpos, end);
      AstrayHere(fields, ids, i, x', s, v, vpos, end);
      RestFlags(fields, ids, i, x, s, v, vpos, end);
      RestFlags(fields, ids, i, x', s, v, vpos, end);
      ShortScan(fields, ids[i + 1..], x, x', Scan(s.src, fields[ids[i]].endOptional, s.pos), end);
    } else {
      AstrayStep(fields, ids, i, x, s, v, vpos, end);
      AstrayStep(fields, ids, i, x', s, v, vpos, end);
      AstrayStopsShort(fields, ids, i + 1, x, x', Skipped(fields, ids, i, s, v, vpos), v, vpos, end);
    }
  }

  lemma RestFlags(fields: seq<Field>, ids: seq<nat>, i: nat, x: Bytes, s: Scan, v: Bytes, vpos: Positions, end: nat)
    requires Known(fields, ids) && i < |ids| && Astray(fields, ids, i, x, s, v, vpos, end)
    ensures FlagsAreBytes(fields, ids[i + 1..]) && end <= |x|
  {
  }

  /** The entry of a row leads to the row. */
  predicate Leads(t: Table, name: Name, ix: Index, block: u32, present: bool, v: Bytes, vpos: Positions)
    requires Known(t.fields, t.keys) && Known(t.fields, ix.sortKeys)
    requires EntryKey(t, name, ix, block, present, v, vpos).Some? && Extract(t.fields, t.keys, v, vpos).Some?
  {
    ExtractPk(t, name, ix.sortKeys, EntryKey(t, name, ix, block, present, v, vpos).value)
      == Some(RowPrefix(block, name, present) + Extract(t.fields, t.keys, v, vpos).value)
  }

  lemma AstrayEntry(t: Table, name: Name, ix: Index, block: u32, present: bool, v: Bytes, vpos: Positions)
    requires Known(t.fields, ix.sortKeys) && FlagsAreBytes(t.fields, ix.sortKeys)
    requires EntryKey(t, name, ix, block, present, v, vpos).Some? && !Aligned(t.fields, ix.sortKeys, v, vpos)
    ensures var x := EntryKey(t, name, ix, block, present, v, vpos).value;
      Astray(t.fields, ix.sortKeys, 0, x, Scan(17, true, map[]), v, vpos, |x| - 5)
  {
    hide Extract, FlagsAreBytes, IndexPrefix, IndexSuffix, Shown, AllFound;
    var ids := ix.sortKeys;
    var k := Extract(t.fields, ids, v, vpos).value;
    var x := IndexPrefix(name, ix.name) + k + IndexSuffix(block, present);
    assert ids[0..] == ids && x[17..17 + |k|] == k;
    ShownFirst(t.fields, ids, v, vpos);
    NothingFound(t.fields, x, v, vpos);
    var j :| 0 <= j < |ids| && !Shown(t.fields, ids, v, vpos, j) && !t.fields[ids[j]].beginOptional;
    assert Skips(t.fields, ids, v, vpos, j);
  }

  /** If the scan goes astray, the block it reads is wrong for the first block or for the last. */
  lemma AstrayMisleads(t: Table, name: Name, ix: Index, v: Bytes, vpos: Positions)
    requires Known(t.fields, t.keys) && Known(t.fields, ix.sortKeys)
    requires FlagsAreBytes(t.fields, ix.sortKeys) && WidthsArePositive(t.fields, ix.sortKeys)
    requires Extract(t.fields, ix.sortKeys, v, vpos).Some? && Extract(t.fields, t.keys, v, vpos).Some?
    requires !Aligned(t.fields, ix.sortKeys, v, vpos)
    ensures !(Leads(t, name, ix, 0, true, v, vpos) && Leads(t, name, ix, 0xffff_ffff, true, v, vpos))
  {
    hide Extract, Fill, FlagsAreBytes, SuffixBlock, SuffixPresent, RowPrefix, IndexPrefix, IndexSuffix, CopyKeys,
      Astray, Shown;
    var ids := ix.sortKeys;
    var p := IndexPrefix(name, ix.name) + Extract(t.fields, ids, v, vpos).value;
    var x, x' := p + IndexSuffix(0, true), p + IndexSuffix(0xffff_ffff, true);
    var s := Scan(17, true, map[]);
    AstrayEntry(t, name, ix, 0, true, v, vpos);
    AstrayEntry(t, name, ix, 0xffff_ffff, true, v, vpos);
    assert ids[0..] == ids && x[..|p|] == p == x'[..|p|];
    AstrayStopsShort(t.fields, ids, 0, x, x', s, v, vpos, |p|);
    var at := Fill(t.fields, ids, x, s).value.src;
    assert x[at] == p[at] == x'[at];
    if Leads(t, name, ix, 0, true, v, vpos) && Leads(t, name, ix, 0xffff_ffff, true, v, vpos) {
      LeadsReads(t, name, ix, 0, v, vpos, x, at);
      LeadsReads(t, name, ix, 0xffff_ffff, v, vpos, x', at);
      FirstByte(x, at, 0);
      FirstByte(x', at, 0xffff_ffff);
    }
  }

  lemma LeadsReads(t: Table, name: Name, ix: Index, block: u32, v: Bytes, vpos: Positions, x: Bytes, at: nat)
    requires Known(t.fields, t.keys) && Known(t.fields, ix.sortKeys)
    requires EntryKey(t, name, ix, block, true, v, vpos) == Some(x) && Extract(t.fields, t.keys, v, vpos).Some?
    requires Leads(t, name, ix, block, true, v, vpos)
    requires var r := Fill(t.fields, ix.sortKeys, x, Scan(17, true, map[])); r.Some? && r.value.src == at
    ensures at + 5 <= |x| && SuffixBlock(x, at) == block
  {
    hide Extract, Fill, SuffixBlock, SuffixPresent, RowPrefix, CopyKeys, EntryKey, BlockOf, TableOf, PresentOf;
    var pos := Fill(t.fields, ix.sortKeys, x, Scan(17, true, map[])).value.pos;
    var k := CopyKeys(t.fields, t.keys, x, pos).value;
    ReadRowPrefix(SuffixBlock(x, at), name, SuffixPresent(x, at), k);
    ReadRowPrefix(block, name, true, Extract(t.fields, t.keys, v, vpos).value);
  }

  /** The first byte of the complement of the first block, and of the last. */
  lemma FirstByte(x: Bytes, at: nat, block: u32)
    requires at + 5 <= |x| && SuffixBlock(x, at) == block
    ensures block == 0 ==> x[at] == 255
    ensures block == 0xffff_ffff ==> x[at] == 0
  {
    var b := x[at..at + 4];
    assert b == [b[0]] + b[1..];
    NumberCons(b[0], b[1..]);
    NumberBound(b[1..]);
    Powers256();
    var first: int := b[0];
    assert Times(Pow256(3), b[0]) == 0x100_0000 * first;
  }

  /** For a row with whatever flags: its entries at all blocks lead to it if and only if no sort key but a flag follows
      a zero flag, and every key field is among the sort keys at a place that does not follow one. */
  lemma EntriesLeadExactly(t: Table, name: Name, ix: Index, v: Bytes, vpos: Positions)
    requires Known(t.fields, t.keys) && Known(t.fields, ix.sortKeys)
    requires FlagsAreBytes(t.fields, ix.sortKeys) && WidthsArePositive(t.fields, ix.sortKeys)
    requires Extract(t.fields, ix.sortKeys, v, vpos).Some? && Extract(t.fields, t.keys, v, vpos).Some?
    ensures (forall block: u32, present: bool :: Leads(t, name, ix, block, present, v, vpos)) <==>
      LeadsBack(t, ix.sortKeys, v, vpos)
  {
    hide Extract, ExtractPk, FlagsAreBytes, Aligned, RowPrefix, IndexPrefix, IndexSuffix, Recorded;
    if Aligned(t.fields, ix.sortKeys, v, vpos) {
      forall block: u32, present: bool
        ensures Leads(t, name, ix, block, present, v, vpos) <==> LeadsBack(t, ix.sortKeys, v, vpos)
      {
        AlignedLeads(t, name, ix, block, present, v, vpos);
      }
      assert Leads(t, name, ix, 0, true, v, vpos) <==> LeadsBack(t, ix.sortKeys, v, vpos);
    } else {
      AstrayMisleads(t, name, ix, v, vpos);
    }
  }

  // ---------- indexes of key fields and flags ----------

  /** An index of key fields and flags alone, each once. */
  predicate KeysAndFlags(t: Table, ids: seq<nat>)
    requires Known(t.fields, ids)
  {
    && (forall i :: 0 <= i < |ids| ==> t.fields[ids[i]].beginOptional || ids[i] in t.keys)
    && forall i, j :: 0 <= i < j < |ids| ==> ids[i] != ids[j]
  }

  lemma {:induction false} FillAdds(fields: seq<Field>, ids: seq<nat>, x: Bytes, s: Scan)
    requires Known(fields, ids)
    ensures var r := Fill(fields, ids, x, s); r.Some? ==> forall id :: id in r.value.pos ==> id in s.pos || id in ids
  {
    if ids != [] {
      var f := fields[ids[0]];
      var pos := if s.present then s.pos[ids[0] := s.src] else s.pos;
      assert forall id :: id in ids[1..] ==> id in ids;
      assert forall id :: id in pos ==> id in s.pos || id == ids[0];
      if f.beginOptional {
        if s.src < |x| { FillAdds(fields, ids[1..], x, Scan(s.src + 1, x[s.src] != 0, pos)); }
      } else if !s.present {
        FillAdds(fields, ids[1..], x, Scan(s.src, f.endOptional, pos));
      } else if f.ty.Fixed? && s.src + f.ty.width <= |x| {
        FillAdds(fields, ids[1..], x, Scan(s.src + f.ty.width, true, pos));
      }
    }
  }

  /** The key field that the scan does not skip is not recorded either. */
  lemma {:induction false} AstrayMisses(t: Table, ids: seq<nat>, i: nat, x: Bytes, s: Scan, v: Bytes, vpos: Positions,
          end: nat)
    requires Known(t.fields, ids) && i <= |ids| && KeysAndFlags(t, ids) && Astray(t.fields, ids, i, x, s, v, vpos, end)
    requires forall id :: id in s.pos ==> id in ids[..i]
    ensures var r := Fill(t.fields, ids[i..], x, s); r.None? || exists id :: id in t.keys && id !in r.value.pos
    decreases |ids| - i
  {
    hide Shown, Astray, Fill, Extract;
    if i < |ids| && Skips(t.fields, ids, v, vpos, i) {
      AstrayHere(t.fields, ids, i, x, s, v, vpos, end);
      FillAdds(t.fields, ids[i + 1..], x, Scan(s.src, t.fields[ids[i]].endOptional, s.pos));
      assert ids[i] !in ids[..i] && ids[i] !in ids[i + 1..];
    } else {
      AstrayStep(t.fields, ids, i, x, s, v, vpos, end);
      assert ids[..i + 1] == ids[..i] + [ids[i]];
      AstrayMisses(t, ids, i + 1, x, Skipped(t.fields, ids, i, s, v, vpos), v, vpos, end);
    }
  }

  /** In such an index each entry leads exactly to its row or nowhere. */
  lemma KeysAndFlagsLead(t: Table, name: Name, ix: Index, block: u32, present: bool, v: Bytes, vpos: Positions)
    requires Known(t.fields, t.keys) && Known(t.fields, ix.sortKeys) && FlagsAreBytes(t.fields, ix.sortKeys)
    requires EntryKey(t, name, ix, block, present, v, vpos).Some? && Extract(t.fields, t.keys, v, vpos).Some?
    requires KeysAndFlags(t, ix.sortKeys)
    ensures ExtractPk(t, name, ix.sortKeys, EntryKey(t, name, ix, block, present, v, vpos).value) ==
      if LeadsBack(t, ix.sortKeys, v, vpos) then
        Some(RowPrefix(block, name, present) + Extract(t.fields, t.keys, v, vpos).value)
      else None
  {
    hide Extract, Fill, FlagsAreBytes, Aligned, RowPrefix, IndexPrefix, IndexSuffix, Recorded, Astray, KeysAndFlags,
         SuffixBlock, SuffixPresent, CopyKeys;
    if Aligned(t.fields, ix.sortKeys, v, vpos) {
      AlignedLeads(t, name, ix, block, present, v, vpos);
    } else {
      var ids, x := ix.sortKeys, EntryKey(t, name, ix, block, present, v, vpos).value;
      AstrayEntry(t, name, ix, block, present, v, vpos);
      assert ids[0..] == ids;
      AstrayMisses(t, ids, 0, x, Scan(17, true, map[]), v, vpos, |x| - 5);
      var r := Fill(t.fields, ids, x, Scan(17, true, map[]));
      if r.Some? {
        var id :| id in t.keys && id !in r.value.pos;
        CopyNeeds(t.fields, t.keys, x, r.value.pos, id);
      }
    }
  }

  // ---------- where extract_pk_from_index goes wrong ----------

  /** A table with an optional number, keyed by another number. */
  const OPTIONAL: Table := Table(
    [Field(Fixed(1, true), true, false), Field(Fixed(1, true), false, true), Field(Fixed(1, true), false, false)],
    [2], [Index(1, [0, 2])], true, None)

  const ABSENT: Bytes := [0, 7]

  lemma FieldsOfAbsent()
    ensures Fields(OPTIONAL, ABSENT) == Some(Scan(2, true, map[0 := 0, 2 := 1]))
  {
    var fields, v := OPTIONAL.fields, ABSENT;
    assert AllIds(3) == [0, 1, 2];
    assert [0, 1, 2][1..] == [1, 2] && [1, 2][1..] == [2] && [2][1..] == [];
    assert Fill(fields, [0, 1, 2], v, Scan(0, true, map[])) == Fill(fields, [1, 2], v, Scan(1, false, map[0 := 0]));
    assert Fill(fields, [1, 2], v, Scan(1, false, map[0 := 0])) == Fill(fields, [2], v, Scan(1, true, map[0 := 0]));
    assert Fill(fields, [2], v, Scan(1, true, map[0 := 0])) == Fill(fields, [], v, Scan(2, true, map[0 := 0][2 := 1]));
  }

  lemma KeysOfAbsent()
    ensures Extract(OPTIONAL.fields, [2], ABSENT, map[0 := 0, 2 := 1]) == Some([7])
    ensures Extract(OPTIONAL.fields, [0, 2], ABSENT, map[0 := 0, 2 := 1]) == Some([0, 7])
  {
    var fields, v, pos: Positions := OPTIONAL.fields, ABSENT, map[0 := 0, 2 := 1];
    assert [7][1..] == [] && [0][1..] == [] && v[1..2] == [7] && v[0..1] == [0];
    assert Reverse([7]) == [7] && Reverse([0]) == [0];
    assert FieldKey(fields[2], v, 1) == Some([7]) && FieldKey(fields[0], v, 0) == Some([0]);
    assert [0, 2][1..] == [2] && [2][1..] == [];
    assert Extract(fields, [], v, pos) == Some([]);
    var none, last, flag: Bytes := [], [7], [0];
    assert last + none == last && flag + last == [0, 7];
    assert Extract(fields, [2], v, pos) == Some(last + none);
    assert Extract(fields, [0, 2], v, pos) == Some(flag + last);
  }

  /** With the flag of an optional field among the sort keys, the entry of a row without it leads nowhere. */
  lemma FlagInIndexLosesRow(block: u32)
    ensures WfTable(OPTIONAL) && forall id :: id in OPTIONAL.keys ==> id in [0, 2]
    ensures RowKey(map[1 := OPTIONAL], block, 1, true, ABSENT).Some?
    ensures RowEntries(map[1 := OPTIONAL], block, 1, true, ABSENT).Some?
    ensures |RowEntries(map[1 := OPTIONAL], block, 1, true, ABSENT).value| == 1
    ensures ExtractPk(OPTIONAL, 1, [0, 2], RowEntries(map[1 := OPTIONAL], block, 1, true, ABSENT).value[0]) == None
  {
    hide Fill, Extract, ExtractPk, IndexPrefix, IndexSuffix, RowPrefix, Fields;
    FieldsOfAbsent();
    KeysOfAbsent();
    var pos: Positions := map[0 := 0, 2 := 1];
    var ix := Index(1, [0, 2]);
    var x := IndexPrefix(1, 1) + [0, 7] + IndexSuffix(block, true);
    assert EntryKey(OPTIONAL, 1, ix, block, true, ABSENT, pos) == Some(x);
    assert OPTIONAL.indexes == [ix] && [ix][..0] == [];
    assert EntryKeys(OPTIONAL, 1, [], block, true, ABSENT, pos) == Some([]);
    assert EntryKeys(OPTIONAL, 1, [ix], block, true, ABSENT, pos) == Some([] + [x]);
    assert ix.sortKeys[1] == 2 && ix.sortKeys[0] == 0;
    assert ZeroFlag(OPTIONAL.fields, ABSENT, pos, 0);
    assert !Shown(OPTIONAL.fields, ix.sortKeys, ABSENT, pos, 1);
    KeysAndFlagsLead(OPTIONAL, 1, ix, block, true, ABSENT, pos);
  }

  /** The same with one more field, and an index in which that field follows the flag. */
  const ASTRAY: Table := Table(OPTIONAL.fields + [Field(Fixed(1, true), false, false)], [2], [ASTRAY_INDEX], true, None)
  const ASTRAY_INDEX: Index := Index(1, [2, 0, 3])
  const ASTRAY_ROW: Bytes := [0, 7, 0xfe]
  const ASTRAY_POSITIONS: Positions := map[0 := 0, 2 := 1, 3 := 2]

  lemma KeysOfAstray()
    ensures Known(ASTRAY.fields, [2, 0, 3]) && Known(ASTRAY.fields, [2])
    ensures Extract(ASTRAY.fields, [2, 0, 3], ASTRAY_ROW, ASTRAY_POSITIONS) == Some([7, 0, 0xfe])
    ensures Extract(ASTRAY.fields, [2], ASTRAY_ROW, ASTRAY_POSITIONS) == Some([7])
  {
    hide Reverse;
    var fields, v, pos := ASTRAY.fields, ASTRAY_ROW, ASTRAY_POSITIONS;
    var ids: seq<nat> := [2, 0, 3];
    assert ids[1..] == [0, 3] && [0, 3][1..] == [3] && [3][1..] == [] && [2][1..] == [];
    OneByte(v, 0);
    OneByte(v, 1);
    OneByte(v, 2);
    var none: Bytes := [];
    assert FieldKey(fields[2], v, 1) == Some([7]) && FieldKey(fields[0], v, 0) == Some([0])
      && FieldKey(fields[3], v, 2) == Some([0xfe]);
    var last, flag, key: Bytes := [0xfe], [0], [7];
    assert last + none == last && flag + last == [0, 0xfe] && key + (flag + last) == [7, 0, 0xfe] && key + none == key;
    assert Extract(fields, [], v, pos) == Some(none);
    assert Extract(fields, [3], v, pos) == Some(last + none);
    assert Extract(fields, [0, 3], v, pos) == Some(flag + last);
    assert Extract(fields, ids, v, pos) == Some(key + (flag + last));
    assert Extract(fields, [2], v, pos) == Some(key + none);
  }

  lemma ScanOfAstray(x: Bytes)
    requires |x| == 25 && x[18] == 0
    ensures Known(ASTRAY.fields, [2, 0, 3])
    ensures Fill(ASTRAY.fields, [2, 0, 3], x, Scan(17, true, map[])) == Some(Scan(19, false, map[2 := 17, 0 := 18]))
  {
    var fields, ids: seq<nat> := ASTRAY.fields, [2, 0, 3];
    var a: Positions, b: Positions := map[2 := 17], map[2 := 17, 0 := 18];
    assert ids[1..] == [0, 3] && [0, 3][1..] == [3] && [3][1..] == [];
    assert Fill(fields, ids, x, Scan(17, true, map[])) == Fill(fields, [0, 3], x, Scan(18, true, a));
    assert Fill(fields, [0, 3], x, Scan(18, true, a)) == Fill(fields, [3], x, Scan(19, false, a[0 := 18]));
    assert Fill(fields, [3], x, Scan(19, false, b)) == Fill(fields, [], x, Scan(19, false, b));
  }

  lemma SuffixOfAstray(p: Bytes)
    requires |p| == 20 && p[19] == 0xfe
    ensures SuffixBlock(p + IndexSuffix(0x0101_0101, false), 19) == 0x0101_0101
    ensures !SuffixPresent(p + IndexSuffix(0x0101_0101, false), 19)
  {
    hide Number;
    var b := BigEndian(0xfefe_fefe, 4);
    assert b == [0xfe, 0xfe, 0xfe, 0xfe] by {
      var none: Bytes := [];
      assert BigEndian(0xfe, 1) == none + [0xfe];
      assert BigEndian(0xfefe, 2) == BigEndian(0xfe, 1) + [0xfe];
      assert BigEndian(0xfe_fefe, 3) == BigEndian(0xfefe, 2) + [0xfe];
    }
    var x := p + IndexSuffix(0x0101_0101, false);
    assert x[19..23] == b;
    Powers256();
    NumberBigEndian(0xfefe_fefe, 4);
  }

  /** For one block an entry can lead to its row although the scan goes astray: the byte of the field that is not
      skipped looks like the start of the block. So the exact condition is about all blocks. */
  lemma AstrayCanLead()
    ensures WfTable(ASTRAY) && !Aligned(ASTRAY.fields, ASTRAY_INDEX.sortKeys, ASTRAY_ROW, ASTRAY_POSITIONS)
    ensures Extract(ASTRAY.fields, ASTRAY.keys, ASTRAY_ROW, ASTRAY_POSITIONS).Some?
    ensures Extract(ASTRAY.fields, ASTRAY_INDEX.sortKeys, ASTRAY_ROW, ASTRAY_POSITIONS).Some?
    ensures Leads(ASTRAY, 1, ASTRAY_INDEX, 0x0101_0101, false, ASTRAY_ROW, ASTRAY_POSITIONS)
  {
    hide RowPrefix, IndexPrefix, Extract, Fill, SuffixBlock, SuffixPresent, IndexSuffix;
    KeysOfAstray();
    var p := IndexPrefix(1, 1) + [7, 0, 0xfe];
    var x := p + IndexSuffix(0x0101_0101, false);
    assert EntryKey(ASTRAY, 1, ASTRAY_INDEX, 0x0101_0101, false, ASTRAY_ROW, ASTRAY_POSITIONS) == Some(x);
    assert x[17] == 7 && x[18] == 0 && x[17..18] == [7];
    ScanOfAstray(x);
    SuffixOfAstray(p);
    CopyOne(ASTRAY.fields, x, map[2 := 17, 0 := 18]);
    assert ASTRAY_INDEX.sortKeys[1] == 0 && ASTRAY_INDEX.sortKeys[2] == 3;
    assert ZeroFlag(ASTRAY.fields, ASTRAY_ROW, ASTRAY_POSITIONS, 0);
    assert !Shown(ASTRAY.fields, ASTRAY_INDEX.sortKeys, ASTRAY_ROW, ASTRAY_POSITIONS, 2);
  }

  lemma CopyOne(fields: seq<Field>, x: Bytes, pos: Positions)
    requires |fields| > 2 && fields[2].ty == Fixed(1, true) && 2 in pos && pos[2] + 1 <= |x|
    ensures CopyKeys(fields, [2], x, pos) == Some(x[pos[2]..pos[2] + 1])
  {
    var none: Bytes := [];
    assert [2][1..] == [];
    assert CopyKeys(fields, [], x, pos) == Some(none);
    assert x[pos[2]..pos[2] + 1] + none == x[pos[2]..pos[2] + 1];
  }
}
