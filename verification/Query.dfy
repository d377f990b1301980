/** Queries without joins: query_database of wasm_ql_rocksdb_plugin.cpp. */
module Query {
  import opened Bytes
  import opened Store
  import opened KeyCodec
  import opened Tables
  import opened Trimming
  import opened History
  import opened Images
  import opened Scans
  import opened TrimScan
  import opened Answers

  // ---------- what a query should give ----------

  ghost predicate HasRows(sc: Schema, rows: Db, ix: Index, g: Bytes)
  {
    exists k :: InGroup(sc, rows, ix, g, 0xffff_ffff, k)
  }

  /** gs are the groups from lower to upper in order, all of them or else the first limit. */
  ghost predicate PageOf(sc: Schema, rows: Db, ix: Index, lower: Bytes, upper: Bytes, limit: nat, gs: seq<Bytes>)
  {
    && Sorted(gs) && |gs| <= limit
    && (forall g :: g in gs ==> AtMost(lower, g) && AtMost(g, upper) && HasRows(sc, rows, ix, g))
    && forall g :: HasRows(sc, rows, ix, g) && AtMost(lower, g) && AtMost(g, upper) ==>
         g in gs || (|gs| == limit && limit > 0 && Less(gs[limit - 1], g))
  }

  /** Each group's row as of the snapshot, where it has one. */
  ghost predicate AnswersOf(sc: Schema, rows: Db, ix: Index, snapshot: u32, gs: seq<Bytes>, ks: seq<Option<Bytes>>)
  {
    |ks| == |gs| && forall i :: 0 <= i < |gs| ==> AnswerOf(sc, rows, ix, snapshot, gs[i], ks[i])
  }

  ghost predicate AnswerOf(sc: Schema, rows: Db, ix: Index, snapshot: u32, g: Bytes, k: Option<Bytes>)
  {
    match k
    case Some(k) => IsAnswer(sc, rows, ix, g, snapshot, k)
    case None => forall u :: !InGroup(sc, rows, ix, g, snapshot, u)
  }

  /** The values of the rows that were found. */
  ghost function Values(rows: Db, ks: seq<Option<Bytes>>): seq<Bytes>
  {
    if ks == [] then []
    else
      var k := ks[|ks| - 1];
      Values(rows, ks[..|ks| - 1]) + (if k.Some? && k.value in rows then [rows[k.value]] else [])
  }

  // ---------- one group ----------

  /** The key from which to look for a row up to the snapshot; tables that are no deltas have no history. */
  function StartOf(g: Bytes, isDelta: bool, snapshot: u32): Bytes
  {
    if isDelta then g + BigEndian(Complement(snapshot), 4) else g
  }

  lemma StartBefore(g: Bytes, isDelta: bool, snapshot: u32, block: u32, present: bool)
    ensures AtMost(StartOf(g, isDelta, snapshot), g + IndexSuffix(block, present)) <==> !isDelta || block <= snapshot
    ensures AtMost(g, StartOf(g, isDelta, snapshot))
  {
    hide Less, Number, BigEndian, Pow256;
    var b, s := BigEndian(Complement(block), 4), BigEndian(Complement(snapshot), 4);
    var f := [Flag(!present)];
    Powers256();
    NumberBigEndian(Complement(block), 4);
    NumberBigEndian(Complement(snapshot), 4);
    assert IndexSuffix(block, present) == b + f && s + [] == s && g + [] == g;
    LessConcat(g, s, g, b + f);
    PairOrder(s, [], b, f);
    LessIrreflexive(g);
    EmptyFirst(b + f);
    EmptyFirst(s);
    EmptyFirst(f);
    LessConcat(g, [], g, b + f);
    LessConcat(g, [], g, s);
  }

  lemma EmptyFirst(a: Bytes)
    ensures a != [] ==> Less([], a)
  {
  }

  /** The database is as end_write leaves it. */
  ghost predicate Clean(sc: Config, db: Db)
  {
    Shaped(db) && GoodRows(sc, ImageOf(db).rows) && ImageOf(db).entries == EntrySet(sc, ImageOf(db).rows)
  }

  lemma EntryInDb(sc: Config, db: Db, x: Bytes)
    requires Clean(sc, db) && x != [] && x[0] == INDEX
    ensures x in db <==> x in EntrySet(sc, ImageOf(db).rows)
  {
    hide EntrySet, GoodRows, Shaped, ReadStatus, STATUS_KEY;
    assert x in ImageOf(db).entries <==> x in db;
  }

  /** The entry of a row of the group. */
  lemma RowEntryInDb(sc: Config, db: Db, name: Name, ix: Index, g: Bytes, snapshot: u32, u: Bytes)
    requires Clean(sc, db) && IsGroup(sc, name, ix, g) && InGroup(sc, ImageOf(db).rows, ix, g, snapshot, u)
    ensures g + IndexSuffix(BlockOf(u), PresentOf(u)) in db
    ensures EntryFor(sc, ImageOf(db).rows, ix, g + IndexSuffix(BlockOf(u), PresentOf(u)), u)
    ensures PkOf(sc, g + IndexSuffix(BlockOf(u), PresentOf(u))) == Some(u)
  {
    hide EntrySet, Shaped, ImageOf, IndexSuffix, BlockOf, PresentOf, IsGroup, PkOf, Group;
    RowInGroupHasEntry(sc, ImageOf(db).rows, name, ix, g, u);
    GroupTag(sc, name, ix, g);
    EntryInDb(sc, db, g + IndexSuffix(BlockOf(u), PresentOf(u)));
  }

  /** What the first key from the start on says, if it has the group's prefix. */
  lemma FoundEntry(sc: Config, db: Db, name: Name, ix: Index, g: Bytes, isDelta: bool, snapshot: u32, x: Bytes)
    requires Clean(sc, db) && IsGroup(sc, name, ix, g)
    requires x in db && AtMost(StartOf(g, isDelta, snapshot), x) && !Past(x, g)
    ensures PkOf(sc, x).Some? && PkOf(sc, x) == ExtractPk(sc[name], name, ix.sortKeys, x)
    ensures EntryFor(sc, ImageOf(db).rows, ix, x, PkOf(sc, x).value)
    ensures InGroup(sc, ImageOf(db).rows, ix, g, if isDelta then snapshot else 0xffff_ffff, PkOf(sc, x).value)
  {
    hide EntrySet, Shaped, ImageOf, IndexSuffix, BlockOf, PresentOf, IsGroup, PkOf, Group, StartOf, Less, Past,
         ExtractPk;
    StartBefore(g, isDelta, snapshot, 0, true);
    AtMostTransitive(g, StartOf(g, isDelta, snapshot), x);
    LongEnough(x, g);
    SamePrefix(x, g);
    GroupTag(sc, name, ix, g);
    assert x[0] == x[..|g|][0];
    EntryInDb(sc, db, x);
    GroupEntry(sc, ImageOf(db).rows, name, ix, g, x);
    var k := PkOf(sc, x).value;
    StartBefore(g, isDelta, snapshot, BlockOf(k), PresentOf(k));
  }

  /** The first entry from the start on is that of the newest row up to the snapshot. */
  lemma FirstIsAnswer(sc: Config, db: Db, name: Name, ix: Index, g: Bytes, isDelta: bool, snapshot: u32,
          it: Option<Bytes>)
    requires Clean(sc, db) && IsGroup(sc, name, ix, g) && IsSeek(db.Keys, StartOf(g, isDelta, snapshot), it)
    ensures AnswerOf(sc, ImageOf(db).rows, ix, if isDelta then snapshot else 0xffff_ffff, g,
                     if it.Some? && !Past(it.value, g) then PkOf(sc, it.value) else None)
  {
    hide Clean, ImageOf, IndexSuffix, BlockOf, PresentOf, IsGroup, PkOf, StartOf, Less, Past, ExtractPk, InGroup,
         EntryFor, NewerRow;
    var rows := ImageOf(db).rows;
    var bound: u32 := if isDelta then snapshot else 0xffff_ffff;
    forall u | InGroup(sc, rows, ix, g, bound, u)
      ensures it.Some? && !Past(it.value, g) && PkOf(sc, it.value).Some?
      ensures u == PkOf(sc, it.value).value || NewerRow(PkOf(sc, it.value).value, u)
    {
      FirstBefore(sc, db, name, ix, g, isDelta, snapshot, it, u);
    }
    if it.Some? && !Past(it.value, g) {
      FoundEntry(sc, db, name, ix, g, isDelta, snapshot, it.value);
    }
  }

  lemma FirstBefore(sc: Config, db: Db, name: Name, ix: Index, g: Bytes, isDelta: bool, snapshot: u32,
          it: Option<Bytes>, u: Bytes)
    requires Clean(sc, db) && IsGroup(sc, name, ix, g) && IsSeek(db.Keys, StartOf(g, isDelta, snapshot), it)
    requires InGroup(sc, ImageOf(db).rows, ix, g, if isDelta then snapshot else 0xffff_ffff, u)
    ensures it.Some? && !Past(it.value, g) && PkOf(sc, it.value).Some?
    ensures u == PkOf(sc, it.value).value || NewerRow(PkOf(sc, it.value).value, u)
  {
    hide Clean, ImageOf, IndexSuffix, BlockOf, PresentOf, IsGroup, PkOf, StartOf, Less, Past, ExtractPk, EntryFor,
         NewerRow, Group;
    var rows := ImageOf(db).rows;
    var start := StartOf(g, isDelta, snapshot);
    var bound: u32 := if isDelta then snapshot else 0xffff_ffff;
    var x := g + IndexSuffix(BlockOf(u), PresentOf(u));
    RowEntryInDb(sc, db, name, ix, g, bound, u);
    StartBefore(g, isDelta, snapshot, BlockOf(u), PresentOf(u));
    if Less(x, start) { NotBoth(x, start); }
    assert it.Some? && AtMost(it.value, x);
    SamePrefix(x, g);
    assert x[..|g|] == g;
    if Past(it.value, g) && it.value != x { PastStays(it.value, x, g); }
    FoundEntry(sc, db, name, ix, g, isDelta, snapshot, it.value);
    if it.value != x {
      GroupOrder(sc, rows, ix, g, it.value, PkOf(sc, it.value).value, x, u);
    }
  }

  /** The inner scan: the first row of the group up to the snapshot, by its entry. */
  method FindRow(sc: Config, db: Db, name: Name, ix: Index, g: Bytes, isDelta: bool,
          snapshot: u32) returns (k: Option<Bytes>)
    requires Clean(sc, db) && IsGroup(sc, name, ix, g)
    ensures AnswerOf(sc, ImageOf(db).rows, ix, if isDelta then snapshot else 0xffff_ffff, g, k)
    ensures k.Some? ==> k.value in db && k.value in ImageOf(db).rows && ImageOf(db).rows[k.value] == db[k.value]
  {
    hide Clean, IndexSuffix, BlockOf, PresentOf, IsGroup, PkOf, StartOf, Less, Past, ExtractPk, Group, NewerRow,
         ReadStatus;
    var it := Seek(db, StartOf(g, isDelta, snapshot));
    FirstIsAnswer(sc, db, name, ix, g, isDelta, snapshot, it);
    if it.None? || Past(it.value, g) {
      return None;
    }
    FoundEntry(sc, db, name, ix, g, isDelta, snapshot, it.value);
    GroupKnown(sc, name, ix, g);
    k := ExtractPkFromIndex(sc[name], name, ix.sortKeys, it.value);
  }

  lemma GroupKnown(sc: Schema, name: Name, ix: Index, g: Bytes)
    requires IsGroup(sc, name, ix, g)
    ensures name in sc && Known(sc[name].fields, sc[name].keys) && Known(sc[name].fields, ix.sortKeys)
  {
  }

  // ---------- the groups in range ----------

  /** Keys that start alike compare by what they start with. */
  lemma {:induction false} PastByPrefix(k: Bytes, upper: Bytes, n: nat)
    requires n <= |k| && n <= |upper| && Less(upper[..n], k[..n])
    ensures Past(k, upper)
  {
    if k[0] == upper[0] {
      assert k[..n][1..] == k[1..][..n - 1] && upper[..n][1..] == upper[1..][..n - 1];
      PastByPrefix(k[1..], upper[1..], n - 1);
    }
  }

  /** Between two keys that start alike all keys do. */
  lemma SharedPrefix(lower: Bytes, k: Bytes, upper: Bytes, n: nat)
    requires n <= |lower| && n <= |k| && n <= |upper| && lower[..n] == upper[..n] && AtMost(lower, k) && !Past(k, upper)
    ensures k[..n] == lower[..n]
  {
    PrefixMonotone(lower, k, n);
    if Less(upper[..n], k[..n]) { PastByPrefix(k, upper, n); }
  }

  lemma TagBefore(lower: Bytes, k: Bytes)
    requires lower != [] && k != [] && lower[0] == INDEX && k[0] == TABLE
    ensures Less(k, lower) && !AtMost(lower, k)
  {
    NotBoth(k, lower);
  }

  /** Every key in the range is an entry of the index. */
  lemma InRangeIsEntry(sc: Config, db: Db, name: Name, ix: Index, lower: Bytes, upper: Bytes, x: Bytes)
    requires Clean(sc, db) && IsGroup(sc, name, ix, lower) && IsGroup(sc, name, ix, upper)
    requires x in db && InRange(x, lower, upper)
    ensures |x| == |upper| + 5 && x in EntrySet(sc, ImageOf(db).rows) && EntryTable(x) == name &&
            EntryIndex(x) == ix.name
  {
    hide EntrySet, ImageOf, Less, Past, EntryTable, EntryIndex, GoodRows, KeyWidth, AtMost, IndexPrefix;
    GroupTag(sc, name, ix, lower);
    if x[0] == TABLE { TagBefore(lower, x); }
    EntryInDb(sc, db, x);
    EntryLength(sc, ImageOf(db).rows, x);
    SharedPrefix(lower, x, upper, 17);
    NamesOf(sc, name, ix, lower, x);
    EntryAt(sc, ImageOf(db).rows, name, ix, x);
  }

  lemma EntryLength(sc: Config, rows: Db, x: Bytes)
    requires GoodRows(sc, rows) && x in EntrySet(sc, rows)
    ensures 22 <= |x|
  {
    hide IsRow, EntriesOf;
    var k :| k in rows && x in EntriesOf(sc, k, rows[k]);
    EntryFindsRow(sc, k, rows[k], x);
  }

  /** A prefix that the scan visits is a group with rows. */
  lemma VisitedGroup(sc: Config, db: Db, name: Name, ix: Index, lower: Bytes, upper: Bytes, p: Bytes, f: Bytes)
    requires Clean(sc, db) && IsGroup(sc, name, ix, lower) && IsGroup(sc, name, ix, upper)
    requires VisitAt(db, |upper|, lower, upper, p, f)
    ensures IsGroup(sc, name, ix, p) && HasRows(sc, ImageOf(db).rows, ix, p)
  {
    hide EntrySet, ImageOf, Less, Past, EntryTable, EntryIndex, GoodRows, KeyWidth, IndexPrefix, Shaped, Group;
    assert lower[..17] == upper[..17];
    if Past(p, upper) { PastPrefix(p, upper); assert p[..|upper|] == p; NotBoth(upper, p); }
    SharedPrefix(lower, p, upper, 17);
    GroupTag(sc, name, ix, p);
    assert f[0] == f[..|p|][0];
    EntryInDb(sc, db, f);
    GroupEntry(sc, ImageOf(db).rows, name, ix, p, f);
    assert InGroup(sc, ImageOf(db).rows, ix, p, 0xffff_ffff, PkOf(sc, f).value);
  }

  /** A group with rows has an entry in the database. */
  lemma GroupHasEntry(sc: Config, db: Db, name: Name, ix: Index, g: Bytes)
    requires Clean(sc, db) && IsGroup(sc, name, ix, g) && HasRows(sc, ImageOf(db).rows, ix, g)
    ensures exists x :: x in db && |g| <= |x| && x[..|g|] == g
  {
    hide Clean, ImageOf, IsGroup, Group, EntryFor, PkOf, BlockOf, PresentOf;
    var k :| InGroup(sc, ImageOf(db).rows, ix, g, 0xffff_ffff, k);
    RowEntryInDb(sc, db, name, ix, g, 0xffff_ffff, k);
    assert (g + IndexSuffix(BlockOf(k), PresentOf(k)))[..|g|] == g;
  }

  /** Groups of the index within the range are groups as lower and upper are. */
  lemma GroupInRange(sc: Config, rows: Db, name: Name, ix: Index, lower: Bytes, upper: Bytes, g: Bytes)
    requires GoodRows(sc, rows) && IsGroup(sc, name, ix, lower) && IsGroup(sc, name, ix, upper)
    requires HasRows(sc, rows, ix, g) && AtMost(lower, g) && AtMost(g, upper)
    ensures IsGroup(sc, name, ix, g)
  {
    hide Less, Past, EntryTable, GoodRows, IndexPrefix, Group, KeyWidth, TableOf, IsRow;
    var k :| InGroup(sc, rows, ix, g, 0xffff_ffff, k);
    GroupNames(sc, k, rows[k], ix, g);
    GroupWidth(sc, k, rows[k], ix);
    PrefixMonotone(lower, g, 17);
    PrefixMonotone(g, upper, 17);
    if Less(lower[..17], g[..17]) { NotBoth(lower[..17], g[..17]); }
    NamesOf(sc, name, ix, lower, g);
  }

  /** The visits of the outer scan are a page of groups. */
  lemma VisitsArePage(sc: Config, db: Db, name: Name, ix: Index, lower: Bytes, upper: Bytes, limit: nat,
          ps: seq<Bytes>, whole: seq<Bytes>)
    requires Clean(sc, db) && IsGroup(sc, name, ix, lower) && IsGroup(sc, name, ix, upper)
    requires Visits(db, |upper|, lower, upper, ps, whole) && |ps| <= limit && 0 < limit
    requires forall k :: k in db && |upper| <= |k| && AtMost(lower, k[..|upper|]) && AtMost(k[..|upper|], upper) ==>
              k[..|upper|] in ps || (|ps| == limit && Less(ps[limit - 1], k[..|upper|]))
    ensures PageOf(sc, ImageOf(db).rows, ix, lower, upper, limit, ps)
    ensures forall g :: g in ps ==> IsGroup(sc, name, ix, g)
  {
    hide ImageOf, Shaped, GoodRows, EntrySet, Less, AtMost, HasRows, IsGroup, VisitAt;
    forall g | g in ps
      ensures AtMost(lower, g) && AtMost(g, upper) && HasRows(sc, ImageOf(db).rows, ix, g) && IsGroup(sc, name, ix, g)
    {
      var i :| 0 <= i < |ps| && ps[i] == g;
      VisitedGroup(sc, db, name, ix, lower, upper, ps[i], whole[i]);
      VisitBounds(db, |upper|, lower, upper, ps[i], whole[i]);
    }
    forall g | HasRows(sc, ImageOf(db).rows, ix, g) && AtMost(lower, g) && AtMost(g, upper)
      ensures g in ps || (|ps| == limit && limit > 0 && Less(ps[limit - 1], g))
    {
      GroupInRange(sc, ImageOf(db).rows, name, ix, lower, upper, g);
      GroupHasEntry(sc, db, name, ix, g);
      SameLength(sc, name, ix, g, upper);
    }
  }

  lemma VisitBounds(db: Db, n: nat, lower: Bytes, upper: Bytes, p: Bytes, f: Bytes)
    requires VisitAt(db, n, lower, upper, p, f)
    ensures AtMost(lower, p) && AtMost(p, upper)
  {
  }

  lemma SameLength(sc: Schema, name: Name, ix: Index, g: Bytes, g': Bytes)
    requires IsGroup(sc, name, ix, g) && IsGroup(sc, name, ix, g')
    ensures |g| == |g'|
  {
  }

  /** A query's table and index, its limit, and the snapshot if it takes one. */
  datatype Query = Query(table: Name, index: Index, hasSnapshot: bool, maxResults: u32)

  /** The query's arguments, read from the request. */
  datatype Args = Args(snapshot: u32, lower: Bytes, upper: Bytes, limit: nat)

  /** The rows of the groups found, one scan for each. */
  method RowsOf(sc: Config, db: Db, q: Query, snapshot: u32, gs: seq<Bytes>) returns (rows: seq<Bytes>,
          ghost ks: seq<Option<Bytes>>)
    requires Clean(sc, db) && q.table in sc && forall g :: g in gs ==> IsGroup(sc, q.table, q.index, g)
    ensures AnswersOf(sc, ImageOf(db).rows, q.index, if sc[q.table].isDelta then snapshot else 0xffff_ffff, gs, ks)
    ensures rows == Values(ImageOf(db).rows, ks)
  {
    hide ImageOf, Clean, IsGroup, AnswerOf;
    ghost var stored := ImageOf(db).rows;
    rows, ks := [], [];
    var i := 0;
    while i < |gs|
      invariant i <= |gs| && |ks| == i && rows == Values(stored, ks)
      invariant forall j :: 0 <= j < i ==>
                  AnswerOf(sc, stored, q.index, if sc[q.table].isDelta then snapshot else 0xffff_ffff, gs[j], ks[j])
    {
      var k := FindRow(sc, db, q.table, q.index, gs[i], sc[q.table].isDelta, snapshot);
      assert (ks + [k])[..|ks|] == ks;
      if k.Some? {
        rows := rows + [db[k.value]];
      } else {
        assert rows + [] == rows;
      }
      ks := ks + [k];
      i := i + 1;
    }
  }

  /** The two scans of query_database: which groups, and which row of each. */
  method Scan(sc: Config, db: Db, q: Query, a: Args) returns (rows: seq<Bytes>, ghost gs: seq<Bytes>,
          ghost ks: seq<Option<Bytes>>)
    requires Clean(sc, db) && IsGroup(sc, q.table, q.index, a.lower) && IsGroup(sc, q.table, q.index, a.upper) &&
             0 < a.limit
    ensures PageOf(sc, ImageOf(db).rows, q.index, a.lower, a.upper, a.limit, gs)
    ensures AnswersOf(sc, ImageOf(db).rows, q.index, if sc[q.table].isDelta then a.snapshot else 0xffff_ffff, gs, ks)
    ensures rows == Values(ImageOf(db).rows, ks)
  {
    hide ImageOf, Clean, IsGroup, PageOf, AnswersOf, InRange, Visits, AtMost, Less, Values;
    GroupTag(sc, q.table, q.index, a.upper);
    assert NotFull(a.upper) by { assert a.upper[0] < 255; }
    SameLength(sc, q.table, q.index, a.lower, a.upper);
    NoShortKeys(sc, db, q.table, q.index, a.lower, a.upper);
    var found := ForEachSubkey(db, a.lower, a.upper, a.limit);
    gs := found.value.0;
    VisitsArePage(sc, db, q.table, q.index, a.lower, a.upper, a.limit, found.value.0, found.value.1);
    GroupKnown(sc, q.table, q.index, a.upper);
    rows, ks := RowsOf(sc, db, q, a.snapshot, found.value.0);
  }

  lemma NoShortKeys(sc: Config, db: Db, name: Name, ix: Index, lower: Bytes, upper: Bytes)
    requires Clean(sc, db) && IsGroup(sc, name, ix, lower) && IsGroup(sc, name, ix, upper)
    ensures forall k :: k in db && InRange(k, lower, upper) ==> |lower| <= |k|
  {
    hide ImageOf, Clean, IsGroup, InRange, EntrySet, EntryTable, EntryIndex;
    SameLength(sc, name, ix, lower, upper);
    forall k | k in db && InRange(k, lower, upper) ensures |lower| <= |k| {
      InRangeIsEntry(sc, db, name, ix, lower, upper, k);
    }
  }

  // ---------- reading the request ----------

  /** The keys that query_to_key makes of the arguments from an offset on, and where they end. */
  function QueryKeys(fields: seq<Field>, ids: seq<nat>, bin: Bytes, at: nat): (r: Option<(Bytes, nat)>)
    requires Known(fields, ids)
    ensures r.Some? ==> |r.value.0| == KeyWidth(fields, ids) && at <= r.value.1
  {
    if ids == [] then Some(([], at)) else
      var k := FieldKey(fields[ids[0]], bin, at);
      if k.None? then None else
        var rest := QueryKeys(fields, ids[1..], bin, at + fields[ids[0]].ty.width);
        if rest.None? then None else Some((k.value + rest.value.0, rest.value.1))
  }

  /** All fields can be part of a key. */
  predicate Sortable(fields: seq<Field>, ids: seq<nat>)
    requires Known(fields, ids)
  {
    forall id :: id in ids ==> fields[id].ty.Fixed? && fields[id].ty.sortable
  }

  /** The numbers in the request from an offset on, one for each sort key. */
  ghost function QueryNumbers(fields: seq<Field>, ids: seq<nat>, bin: Bytes, at: nat): (r: seq<nat>)
    requires Known(fields, ids) && Sortable(fields, ids) && at + KeyWidth(fields, ids) <= |bin|
    ensures |r| == |ids|
  {
    if ids == [] then [] else
      var w := fields[ids[0]].ty.width;
      [LittleNumber(bin[at..at + w])] + QueryNumbers(fields, ids[1..], bin, at + w)
  }

  /** Arguments can be read if there are enough bytes for fields that can be part of a key, and become their numbers,
      most significant byte first. */
  lemma {:induction false} QueryKeysExactly(fields: seq<Field>, ids: seq<nat>, bin: Bytes, at: nat)
    requires Known(fields, ids) && at <= |bin|
    ensures QueryKeys(fields, ids, bin, at).Some? <==> Sortable(fields, ids) && at + KeyWidth(fields, ids) <= |bin|
    ensures var r := QueryKeys(fields, ids, bin, at);
      r.Some? ==> r.value == (Encoded(fields, ids, QueryNumbers(fields, ids, bin, at)), at + KeyWidth(fields, ids))
  {
    hide LittleNumber, Reverse;
    if ids != [] {
      var f := fields[ids[0]];
      assert forall id :: id in ids <==> id == ids[0] || id in ids[1..];
      if f.ty.Fixed? && f.ty.sortable && at + f.ty.width <= |bin| {
        QueryKeysExactly(fields, ids[1..], bin, at + f.ty.width);
        FieldKeyEncodes(f, bin, at);
      }
    }
  }

  /** A row's keys are in the queried range exactly when its numbers are, as tuples. */
  lemma {:induction false} QueryOrder(fields: seq<Field>, ids: seq<nat>, bin: Bytes, at: nat, v: Bytes, pos: Positions)
    requires Known(fields, ids) && Sortable(fields, ids) && at + KeyWidth(fields, ids) <= |bin|
    requires Extract(fields, ids, v, pos).Some?
    ensures QueryKeys(fields, ids, bin, at).Some?
    ensures |QueryKeys(fields, ids, bin, at).value.0| == |Extract(fields, ids, v, pos).value|
    ensures Less(QueryKeys(fields, ids, bin, at).value.0, Extract(fields, ids, v, pos).value)
       <==> TupleLess(QueryNumbers(fields, ids, bin, at), KeyNumbers(fields, ids, v, pos))
    ensures Less(Extract(fields, ids, v, pos).value, QueryKeys(fields, ids, bin, at).value.0)
       <==> TupleLess(KeyNumbers(fields, ids, v, pos), QueryNumbers(fields, ids, bin, at))
  {
    hide Less, Number, LittleNumber, TupleLess, Reverse;
    QueryKeysExactly(fields, ids, bin, at);
    if ids == [] {
      LessIrreflexive([]);
      NoTuple();
    } else {
      var f := fields[ids[0]];
      var a, b := FieldKey(f, bin, at).value, FieldKey(f, v, pos[ids[0]]).value;
      FieldKeyNumber(f, bin, at);
      FieldKeyNumber(f, v, pos[ids[0]]);
      QueryOrder(fields, ids[1..], bin, at + f.ty.width, v, pos);
      var a', b' := QueryKeys(fields, ids[1..], bin, at + f.ty.width).value.0, Extract(fields, ids[1..], v, pos).value;
      var n, n' := QueryNumbers(fields, ids[1..], bin, at + f.ty.width), KeyNumbers(fields, ids[1..], v, pos);
      FieldFirst(a, a', n, b, b', n');
      FieldFirst(b, b', n', a, a', n);
    }
  }

  lemma FieldFirst(a: Bytes, a': Bytes, n: seq<nat>, b: Bytes, b': Bytes, n': seq<nat>)
    requires |a| == |b| && |n| == |n'| && (Less(a', b') <==> TupleLess(n, n'))
    ensures Less(a + a', b + b') <==> TupleLess([Number(a)] + n, [Number(b)] + n')
  {
    hide Less, Number, TupleLess;
    PairOrder(a, a', b, b');
    TupleCons(Number(a), n, Number(b), n');
  }

  /** add_fields. */
  method AddFields(dest: Bytes, fields: seq<Field>, ids: seq<nat>, bin: Bytes, at: nat) returns (r: Option<(Bytes,
          nat)>)
    requires Known(fields, ids)
    ensures r.None? <==> QueryKeys(fields, ids, bin, at).None?
    ensures r.Some? ==>
      r.value == (dest + QueryKeys(fields, ids, bin, at).value.0, QueryKeys(fields, ids, bin, at).value.1)
  {
    var out: Bytes, pos: nat := dest, at;
    var i := 0;
    ghost var all := QueryKeys(fields, ids, bin, at);
    while i < |ids|
      invariant i <= |ids|
      invariant all.None? <==> QueryKeys(fields, ids[i..], bin, pos).None?
      invariant all.Some? ==> dest + all.value.0 == out + QueryKeys(fields, ids[i..], bin, pos).value.0
                              && all.value.1 == QueryKeys(fields, ids[i..], bin, pos).value.1
    {
      assert ids[i..][0] == ids[i] && ids[i..][1..] == ids[i + 1..];
      var k := FieldKey(fields[ids[i]], bin, pos);
      if k.None? {
        return None;
      }
      out, pos := out + k.value, pos + fields[ids[i]].ty.width;
      i := i + 1;
    }
    assert ids[i..] == [] && out + [] == out;
    r := Some((out, pos));
  }

  /** Where the ranges of a request start, and how many bytes each has. */
  function RangeAt(q: Query): nat
  {
    if q.hasSnapshot then 4 else 0
  }

  /** The request has all its parts, and the index is over fields that can be part of a key. */
  predicate WellFormed(fields: seq<Field>, q: Query, bin: Bytes)
    requires Known(fields, q.index.sortKeys)
  {
    var w := KeyWidth(fields, q.index.sortKeys);
    Sortable(fields, q.index.sortKeys) && RangeAt(q) + w + w + 4 <= |bin|
  }

  /** What a request asks for. The snapshot is the one in its first four bytes, but never after the head. The range is
      from the first list of numbers to the second. The number of results is the one asked for at the end or the query's
      greatest, whichever is less, but one if that is none. */
  ghost predicate Asks(fields: seq<Field>, q: Query, head: u32, bin: Bytes, a: Args)
    requires Known(fields, q.index.sortKeys) && WellFormed(fields, q, bin)
  {
    var ids, at, w := q.index.sortKeys, RangeAt(q), KeyWidth(fields, q.index.sortKeys);
    var count := LittleNumber(bin[at + w + w..at + w + w + 4]);
    && (if q.hasSnapshot then
          var asked := LittleNumber(bin[..4]);
          a.snapshot <= head && a.snapshot <= asked && (a.snapshot == head || a.snapshot == asked)
        else a.snapshot == 0)
    && a.lower == IndexPrefix(q.table, q.index.name) + Encoded(fields, ids, QueryNumbers(fields, ids, bin, at))
    && a.upper == IndexPrefix(q.table, q.index.name) + Encoded(fields, ids, QueryNumbers(fields, ids, bin, at + w))
    && (if count == 0 || q.maxResults == 0 then a.limit == 1
        else a.limit <= count && a.limit <= q.maxResults && (a.limit == count || a.limit == q.maxResults))
  }

  /** query_database: None for a request that ends too early or asks for fields that cannot be keys. Otherwise the
      values of the newest rows as of the snapshot, for the distinct index keys of the page that is asked for. */
  method QueryDatabase(sc: Config, db: Db, q: Query, head: u32, bin: Bytes)
    returns (r: Option<seq<Bytes>>, ghost a: Args, ghost gs: seq<Bytes>, ghost ks: seq<Option<Bytes>>)
    requires Clean(sc, db) && q.table in sc && q.index in sc[q.table].indexes
    ensures r.Some? <==> WellFormed(sc[q.table].fields, q, bin)
    ensures r.Some? ==>
      && Asks(sc[q.table].fields, q, head, bin, a)
      && PageOf(sc, ImageOf(db).rows, q.index, a.lower, a.upper, a.limit, gs)
      && AnswersOf(sc, ImageOf(db).rows, q.index, if sc[q.table].isDelta then a.snapshot else 0xffff_ffff, gs, ks)
      && r.value == Values(ImageOf(db).rows, ks)
  {
    hide Clean, ImageOf, PageOf, AnswersOf, Values, QueryKeys, IndexPrefix, Number32, LittleNumber, KeyWidth, Sortable,
         QueryNumbers, Encoded;
    a := Args(0, [], [], 0);
    r, gs, ks := None, [], [];
    var fields, ids := sc[q.table].fields, q.index.sortKeys;
    var at := 0;
    var snapshot := 0;
    if q.hasSnapshot {
      if |bin| < 4 {
        return;
      }
      NumberIs32(bin[..4]);
      var asked := Number32(bin[..4]);
      snapshot := if asked < head then asked else head;
      at := 4;
    }
    var prefix := IndexPrefix(q.table, q.index.name);
    QueryKeysExactly(fields, ids, bin, at);
    var lower := AddFields(prefix, fields, ids, bin, at);
    if lower.None? {
      return;
    }
    QueryKeysExactly(fields, ids, bin, lower.value.1);
    var upper := AddFields(prefix, fields, ids, bin, lower.value.1);
    if upper.None? || |bin| < upper.value.1 + 4 {
      return;
    }
    NumberIs32(bin[upper.value.1..upper.value.1 + 4]);
    var count := Number32(bin[upper.value.1..upper.value.1 + 4]);
    var limit := if count < q.maxResults then count else q.maxResults;
    var args := Args(snapshot, lower.value.0, upper.value.0, if limit == 0 then 1 else limit);
    a := args;
    var rows;
    rows, gs, ks := Scan(sc, db, q, args);
    r := Some(rows);
  }

  // ---------- one answer only ----------

  lemma AtOrAfter(gs: seq<Bytes>, i: nat, j: nat)
    requires Sorted(gs) && i <= j < |gs|
    ensures AtMost(gs[i], gs[j])
  {
  }

  /** Up to where two pages agree, the next group of the one is not before that of the other. */
  lemma NextNotBefore(sc: Schema, rows: Db, ix: Index, lower: Bytes, upper: Bytes, limit: nat, gs: seq<Bytes>,
          gs': seq<Bytes>, i: nat)
    requires PageOf(sc, rows, ix, lower, upper, limit, gs) && PageOf(sc, rows, ix, lower, upper, limit, gs')
    requires i < |gs| && i < |gs'| && gs[..i] == gs'[..i]
    ensures AtMost(gs'[i], gs[i])
  {
    hide Less, AtMost, HasRows;
    var g := gs[i];
    assert g in gs;
    if g in gs' {
      var j :| 0 <= j < |gs'| && gs'[j] == g;
      if j < i {
        assert gs[..i][j] == g && gs[j] == g;
        LessIrreflexive(g);
      }
      AtOrAfter(gs', i, j);
    } else {
      AtOrAfter(gs', i, limit - 1);
      AtMostThenLess(gs'[i], gs'[limit - 1], g);
    }
  }

  lemma AtMostThenLess(a: Bytes, b: Bytes, c: Bytes)
    requires AtMost(a, b) && Less(b, c)
    ensures AtMost(a, c)
  {
    AtMostTransitive(a, b, c);
  }

  lemma {:induction false} PagesAgree(sc: Schema, rows: Db, ix: Index, lower: Bytes, upper: Bytes, limit: nat,
          gs: seq<Bytes>, gs': seq<Bytes>, i: nat)
    requires PageOf(sc, rows, ix, lower, upper, limit, gs) && PageOf(sc, rows, ix, lower, upper, limit, gs')
    requires i <= |gs| && i <= |gs'|
    ensures gs[..i] == gs'[..i]
  {
    hide PageOf, AtMost;
    if i > 0 {
      PagesAgree(sc, rows, ix, lower, upper, limit, gs, gs', i - 1);
      NextNotBefore(sc, rows, ix, lower, upper, limit, gs, gs', i - 1);
      NextNotBefore(sc, rows, ix, lower, upper, limit, gs', gs, i - 1);
      OnlyEqual(gs[i - 1], gs'[i - 1]);
      assert gs[..i] == gs[..i - 1] + [gs[i - 1]] && gs'[..i] == gs'[..i - 1] + [gs'[i - 1]];
    }
  }

  lemma OnlyEqual(a: Bytes, b: Bytes)
    requires AtMost(a, b) && AtMost(b, a)
    ensures a == b
  {
    if Less(a, b) { NotBoth(a, b); }
  }

  lemma NotLonger(sc: Schema, rows: Db, ix: Index, lower: Bytes, upper: Bytes, limit: nat, gs: seq<Bytes>,
          gs': seq<Bytes>)
    requires PageOf(sc, rows, ix, lower, upper, limit, gs) && PageOf(sc, rows, ix, lower, upper, limit, gs')
    ensures |gs'| <= |gs|
  {
    hide Less, AtMost, HasRows;
    if |gs| < |gs'| {
      PagesAgree(sc, rows, ix, lower, upper, limit, gs, gs', |gs|);
      var g := gs'[|gs|];
      assert g in gs';
      var j :| 0 <= j < |gs| && gs[j] == g;
      assert gs'[..|gs|][j] == g && gs'[j] == g;
      LessIrreflexive(g);
    }
  }

  lemma PageUnique(sc: Schema, rows: Db, ix: Index, lower: Bytes, upper: Bytes, limit: nat, gs: seq<Bytes>,
          gs': seq<Bytes>)
    requires PageOf(sc, rows, ix, lower, upper, limit, gs) && PageOf(sc, rows, ix, lower, upper, limit, gs')
    ensures gs == gs'
  {
    hide PageOf;
    NotLonger(sc, rows, ix, lower, upper, limit, gs, gs');
    NotLonger(sc, rows, ix, lower, upper, limit, gs', gs);
    PagesAgree(sc, rows, ix, lower, upper, limit, gs, gs', |gs|);
    assert gs[..|gs|] == gs && gs'[..|gs|] == gs';
  }

  lemma AnswersUnique(sc: Schema, rows: Db, ix: Index, snapshot: u32, gs: seq<Bytes>, ks: seq<Option<Bytes>>,
          ks': seq<Option<Bytes>>)
    requires AnswersOf(sc, rows, ix, snapshot, gs, ks) && AnswersOf(sc, rows, ix, snapshot, gs, ks')
    ensures ks == ks'
  {
    hide InGroup, NewerRow;
    forall i | 0 <= i < |gs| ensures ks[i] == ks'[i] {
      assert AnswerOf(sc, rows, ix, snapshot, gs[i], ks[i]) && AnswerOf(sc, rows, ix, snapshot, gs[i], ks'[i]);
      if ks[i].Some? && ks'[i].Some? {
        NewerOrder(ks[i].value, ks'[i].value, ks[i].value);
      }
    }
  }

  // ---------- trimming ----------

  lemma TrimKeepsHasRows(sc: Config, rows: Db, first: u32, end: u32, name: Name, ix: Index, lower: Bytes,
          upper: Bytes, g: Bytes)
    requires GoodRows(sc, rows) && KeyedAlike(sc, name, ix) && IsGroup(sc, name, ix, lower) &&
             IsGroup(sc, name, ix, upper)
    requires AtMost(lower, g) && AtMost(g, upper)
    ensures HasRows(sc, rows, ix, g) <==> HasRows(sc, rows - Trimmed(sc, rows, first, end), ix, g)
  {
    hide KeyedAlike, IsGroup, Trimmed, AtMost, Group, TableOf, BlockOf, IsRow;
    var left := rows - Trimmed(sc, rows, first, end);
    if HasRows(sc, rows, ix, g) {
      var k :| InGroup(sc, rows, ix, g, 0xffff_ffff, k);
      GroupInRange(sc, rows, name, ix, lower, upper, g);
      RowInGroupHasEntry(sc, rows, name, ix, g, k);
      TrimKeepsGroups(sc, rows, first, end, ix, g, k);
    }
    if HasRows(sc, left, ix, g) {
      var k :| InGroup(sc, left, ix, g, 0xffff_ffff, k);
      assert InGroup(sc, rows, ix, g, 0xffff_ffff, k);
    }
  }

  lemma TrimKeepsAnswer(sc: Config, rows: Db, first: u32, end: u32, name: Name, ix: Index, g: Bytes, snapshot: u32,
          k: Option<Bytes>)
    requires GoodRows(sc, rows) && KeyedAlike(sc, name, ix) && IsGroup(sc, name, ix, g) && end <= snapshot
    requires AnswerOf(sc, rows, ix, snapshot, g, k)
    ensures AnswerOf(sc, rows - Trimmed(sc, rows, first, end), ix, snapshot, g, k)
  {
    hide KeyedAlike, IsGroup, Trimmed, Group, TableOf, BlockOf, IsRow, NewerRow;
    var left := rows - Trimmed(sc, rows, first, end);
    if k.Some? {
      RowInGroupHasEntry(sc, rows, name, ix, g, k.value);
      AnswerStays(sc, rows, first, end, ix, g, snapshot, k.value);
    } else {
      forall u ensures !InGroup(sc, left, ix, g, snapshot, u) {
        assert !InGroup(sc, rows, ix, g, snapshot, u);
      }
    }
  }

  /** Trimming changes no page and no answer of a query at a snapshot from its end on, when the query's index and the
      table's trim index are over exactly the key fields. */
  lemma TrimKeepsQueries(sc: Config, rows: Db, first: u32, end: u32, name: Name, ix: Index, lower: Bytes,
          upper: Bytes, limit: nat,
                         snapshot: u32, gs: seq<Bytes>, ks: seq<Option<Bytes>>, gs': seq<Bytes>,
                         ks': seq<Option<Bytes>>)
    requires GoodRows(sc, rows) && KeyedAlike(sc, name, ix) && IsGroup(sc, name, ix, lower) &&
             IsGroup(sc, name, ix, upper)
    requires end <= snapshot
    requires PageOf(sc, rows, ix, lower, upper, limit, gs) && AnswersOf(sc, rows, ix, snapshot, gs, ks)
    requires var left := rows - Trimmed(sc, rows, first, end);
      PageOf(sc, left, ix, lower, upper, limit, gs') && AnswersOf(sc, left, ix, snapshot, gs', ks')
    ensures gs == gs' && ks == ks' && Values(rows, ks) == Values(rows - Trimmed(sc, rows, first, end), ks')
  {
    hide KeyedAlike, IsGroup, Trimmed, HasRows, AtMost, Less, AnswerOf, IsRow;
    var left := rows - Trimmed(sc, rows, first, end);
    forall g | AtMost(lower, g) && AtMost(g, upper) ensures HasRows(sc, rows, ix, g) <==> HasRows(sc, left, ix, g) {
      TrimKeepsHasRows(sc, rows, first, end, name, ix, lower, upper, g);
    }
    assert PageOf(sc, left, ix, lower, upper, limit, gs);
    PageUnique(sc, left, ix, lower, upper, limit, gs, gs');
    forall i | 0 <= i < |gs| ensures AnswerOf(sc, left, ix, snapshot, gs[i], ks[i]) {
      assert gs[i] in gs;
      GroupInRange(sc, rows, name, ix, lower, upper, gs[i]);
      TrimKeepsAnswer(sc, rows, first, end, name, ix, gs[i], snapshot, ks[i]);
    }
    AnswersUnique(sc, left, ix, snapshot, gs, ks, ks');
    SameValues(sc, left, rows, ix, snapshot, gs, ks);
  }

  lemma {:induction false} SameValues(sc: Schema, left: Db, rows: Db, ix: Index, snapshot: u32, gs: seq<Bytes>,
          ks: seq<Option<Bytes>>)
    requires AnswersOf(sc, left, ix, snapshot, gs, ks) && forall k :: k in left ==> k in rows && rows[k] == left[k]
    ensures Values(rows, ks) == Values(left, ks)
  {
    if ks != [] {
      var n := |ks| - 1;
      forall i | 0 <= i < n ensures AnswerOf(sc, left, ix, snapshot, gs[..n][i], ks[..n][i]) {
        assert AnswerOf(sc, left, ix, snapshot, gs[i], ks[i]);
      }
      SameValues(sc, left, rows, ix, snapshot, gs[..n], ks[..n]);
      assert AnswerOf(sc, left, ix, snapshot, gs[n], ks[n]);
    }
  }
}
