/** The columns that the alternatives of a variant share, and the values printed into them: abieos_sql_converter.cpp. */
module SqlColumns {
  import opened Bytes
  import opened Store
  import opened SqlText

  /** A field's or a column's name and SQL type. */
  datatype FieldDef = FieldDef(name: Text, ty: Text)

  /** An alternative of a variant, which is a structure. */
  datatype Alternative = Alternative(name: Text, fields: seq<FieldDef>)

  /** The place of the first column with a name, or the number of columns. */
  function Find(cols: seq<FieldDef>, name: Text): (r: nat)
    ensures r <= |cols|
    ensures r < |cols| ==> cols[r].name == name
    ensures forall q :: 0 <= q < r ==> cols[q].name != name
  {
    if cols == [] then 0 else if cols[0].name == name then 0 else 1 + Find(cols[1..], name)
  }

  predicate Has(cols: seq<FieldDef>, name: Text) { Find(cols, name) < |cols| }

  lemma FindIs(cols: seq<FieldDef>, name: Text, p: nat)
    requires p < |cols| && cols[p].name == name && forall q :: 0 <= q < p ==> cols[q].name != name
    ensures Find(cols, name) == p
  {
  }

  /** The name that a column gets when the next alternative has the field with another type. */
  function Qualified(alt: Text, field: Text): Text
  {
    alt + [95] + field
  }

  // ---------- merging ----------

  /** Columns so far, and fields that wait for a place. */
  datatype Merging = Merging(cols: seq<FieldDef>, pending: seq<FieldDef>)

  /** One field of an alternative; prev names the alternative before. */
  function MergeField(m: Merging, prev: Text, f: FieldDef): Merging
  {
    var k := Find(m.cols, f.name);
    if k == |m.cols| then Merging(m.cols, m.pending + [f])
    else if m.cols[k].ty == f.ty then Merging(m.cols[..k] + m.pending + m.cols[k..], [])
    else Merging(m.cols[..k] + m.pending + [FieldDef(Qualified(prev, f.name), m.cols[k].ty), f] + m.cols[k + 1..], [])
  }

  function MergeFields(cols: seq<FieldDef>, prev: Text, fields: seq<FieldDef>): Merging
  {
    if fields == [] then Merging(cols, [])
    else MergeField(MergeFields(cols, prev, fields[..|fields| - 1]), prev, fields[|fields| - 1])
  }

  function Union(alts: seq<Alternative>): seq<FieldDef>
  {
    if alts == [] then [] else
      var n := |alts| - 1;
      var m := MergeFields(Union(alts[..n]), if n == 0 then [] else alts[n - 1].name, alts[n].fields);
      m.cols + m.pending
  }

  /** The place of one field among the columns: shared, shared by name only, or waiting. */
  method PlaceField(cols: seq<FieldDef>, pending: seq<FieldDef>, prev: Text, f: FieldDef)
    returns (cols': seq<FieldDef>, pending': seq<FieldDef>)
    ensures Merging(cols', pending') == MergeField(Merging(cols, pending), prev, f)
  {
    var itr := FindColumn(cols, f.name);
    if itr == |cols| {
      return cols, pending + [f];
    }
    Rebuilt(cols, pending, f, itr, prev);
    cols', pending' := cols[..itr] + pending + cols[itr..], [];
    itr := itr + |pending|;
    if cols'[itr].ty != f.ty {
      cols' := cols'[itr := FieldDef(Qualified(prev, f.name), cols'[itr].ty)];
      itr := itr + 1;
      cols' := cols'[..itr] + [f] + cols'[itr..];
    }
  }

  /** The constructor of union_fields_t. The first alternative's fields have names of their own, or the code would look
      for an alternative before it. */
  method UnionFields(alts: seq<Alternative>) returns (cols: seq<FieldDef>)
    ensures cols == Union(alts)
  {
    hide MergeField;
    cols := [];
    for i := 0 to |alts|
      invariant cols == Union(alts[..i])
    {
      assert alts[..i + 1][..i] == alts[..i];
      var fields := alts[i].fields;
      var prev := if i == 0 then [] else alts[i - 1].name;
      ghost var was := cols;
      var pending: seq<FieldDef> := [];
      for j := 0 to |fields|
        invariant Merging(cols, pending) == MergeFields(was, prev, fields[..j])
      {
        assert fields[..j + 1][..j] == fields[..j];
        cols, pending := PlaceField(cols, pending, prev, fields[j]);
      }
      assert fields[..|fields|] == fields;
      assert i > 0 ==> alts[..i + 1][i - 1] == alts[i - 1];
      cols := cols + pending;
    }
    assert alts[..|alts|] == alts;
  }

  lemma Rebuilt(c: seq<FieldDef>, p: seq<FieldDef>, f: FieldDef, k: nat, prev: Text)
    requires k < |c|
    ensures var c1 := c[..k] + p + c[k..]; var c2 := c1[k + |p| := FieldDef(Qualified(prev, f.name), c1[k + |p|].ty)];
      c2[..k + |p| + 1] + [f] + c2[k + |p| + 1..]
        == c[..k] + p + [FieldDef(Qualified(prev, f.name), c[k].ty), f] + c[k + 1..]
  {
  }

  method FindColumn(cols: seq<FieldDef>, name: Text) returns (r: nat)
    ensures r == Find(cols, name)
  {
    r := 0;
    while r < |cols| && cols[r].name != name
      invariant r <= |cols| && forall q :: 0 <= q < r ==> cols[q].name != name
    {
      r := r + 1;
    }
    if r < |cols| { FindIs(cols, name, r); }
  }

  // ---------- where an alternative's fields end up ----------

  /** The test of to_sql_values: the column is for the field. */
  predicate Matches(c: FieldDef, alt: Text, f: FieldDef)
  {
    c.name == f.name || c.name == Qualified(alt, f.name)
  }

  /** Column p is the first for the field, and has its type. */
  predicate KeyAt(cols: seq<FieldDef>, alt: Text, f: FieldDef, p: nat)
  {
    && p < |cols| && Matches(cols[p], alt, f) && cols[p].ty == f.ty
    && forall q :: 0 <= q < p ==> !Matches(cols[q], alt, f)
  }

  predicate Increasing(at: seq<nat>)
  {
    forall s, t :: 0 <= s < t < |at| ==> at[s] < at[t]
  }

  /** The alternative's fields have their columns, in order. */
  predicate IsPlaced(cols: seq<FieldDef>, a: Alternative, at: seq<nat>)
  {
    |at| == |a.fields| && Increasing(at) && forall t :: 0 <= t < |at| ==> KeyAt(cols, a.name, a.fields[t], at[t])
  }

  ghost predicate Placed(cols: seq<FieldDef>, a: Alternative)
  {
    exists at :: IsPlaced(cols, a, at)
  }

  predicate Named(cols: seq<FieldDef>, a: Alternative)
  {
    forall t :: 0 <= t < |a.fields| ==> Has(cols, a.fields[t].name)
  }

  // ---------- one step of merging ----------

  /** Where column p goes when a field is placed at k after n waiting ones; d is 1 if the column is renamed. */
  function Moved(k: nat, n: nat, d: nat, p: nat): nat
  {
    if p < k then p else if p == k then k + n else p + n + d
  }

  function Renames(m: Merging, f: FieldDef): nat
  {
    var k := Find(m.cols, f.name);
    if k < |m.cols| && m.cols[k].ty != f.ty then 1 else 0
  }

  lemma StepShape(m: Merging, prev: Text, f: FieldDef)
    requires Has(m.cols, f.name)
    ensures var k := Find(m.cols, f.name); var n := |m.pending|; var d := Renames(m, f);
      var c := MergeField(m, prev, f).cols;
      && |c| == |m.cols| + n + d
      && (forall p :: 0 <= p < |m.cols| && p != k ==> c[Moved(k, n, d, p)] == m.cols[p])
      && c[k + n] == (if d == 1 then FieldDef(Qualified(prev, f.name), m.cols[k].ty) else m.cols[k])
      && (d == 1 ==> c[k + n + 1] == f)
      && (forall s :: 0 <= s < n ==> c[k + s] == m.pending[s])
      && MergeField(m, prev, f).pending == []
  {
    hide Qualified, Find;
  }

  /** The new names do not look like those of field g of alternative b. */
  predicate Apart(m: Merging, prev: Text, f: FieldDef, b: Text, g: FieldDef)
  {
    && (forall s :: 0 <= s < |m.pending| ==> !Matches(m.pending[s], b, g))
    && f.name != Qualified(b, g.name)
    && (Renames(m, f) == 1 ==>
      Qualified(prev, f.name) != g.name && (Qualified(prev, f.name) == Qualified(b, g.name) ==> f.name == g.name))
  }

  /** A field of an earlier alternative keeps its column, under its old or its new name. */
  lemma KeyMoves(m: Merging, prev: Text, f: FieldDef, b: Text, g: FieldDef, p: nat)
    requires Has(m.cols, f.name) && KeyAt(m.cols, b, g, p) && Apart(m, prev, f, b, g)
    requires p == Find(m.cols, f.name) && m.cols[p].ty != f.ty ==> b == prev
    ensures KeyAt(MergeField(m, prev, f).cols, b, g, Moved(Find(m.cols, f.name), |m.pending|, Renames(m, f), p))
  {
    hide Qualified, MergeField, Find;
    StepShape(m, prev, f);
    var k, n, d := Find(m.cols, f.name), |m.pending|, Renames(m, f);
    var c := MergeField(m, prev, f).cols;
    var p' := Moved(k, n, d, p);
    assert m.cols[k].name == f.name;
    forall q | 0 <= q < p' ensures !Matches(c[q], b, g) {
      if q < k {
        assert c[Moved(k, n, d, q)] == m.cols[q];
      } else if q < k + n {
        assert c[k + (q - k)] == m.pending[q - k];
      } else if q >= k + n + 1 + d {
        assert c[Moved(k, n, d, q - n - d)] == m.cols[q - n - d];
      }
    }
  }

  // ---------- well-formed variants ----------

  predicate IsField(alts: seq<Alternative>, b: int, t: int)
  {
    0 <= b < |alts| && 0 <= t < |alts[b].fields|
  }

  /** No field's name is that of another with its alternative's name before it, and no two of those are the same. */
  ghost predicate NamesApart(alts: seq<Alternative>)
  {
    && (forall a, s, b, t :: (IsField(alts, a, s) && IsField(alts, b, t)) ==> Unalike(alts, a, s, b, t))
    && (forall a, s, t :: (IsField(alts, a, s) && IsField(alts, a, t) && s != t) ==>
      alts[a].fields[s].name != alts[a].fields[t].name)
  }

  predicate Unalike(alts: seq<Alternative>, a: int, s: int, b: int, t: int)
    requires IsField(alts, a, s) && IsField(alts, b, t)
  {
    var f, g := alts[a].fields[s].name, alts[b].fields[t].name;
    && Qualified(alts[a].name, f) != g
    && (Qualified(alts[a].name, f) == Qualified(alts[b].name, g) ==> a == b && f == g)
  }

  /** Fields of one name have one type, but for those of neighbouring alternatives. */
  ghost predicate ConflictsAreNear(alts: seq<Alternative>)
  {
    forall a, s, b, t :: (IsField(alts, a, s) && IsField(alts, b, t) && a + 1 < b) ==>
      (alts[a].fields[s].name == alts[b].fields[t].name ==> alts[a].fields[s].ty == alts[b].fields[t].ty)
  }

  /** The fields that have a column already come in the order of those columns. */
  predicate InOrder(cols: seq<FieldDef>, fields: seq<FieldDef>)
  {
    forall s, t :: 0 <= s < t < |fields| && Has(cols, fields[s].name) && Has(cols, fields[t].name) ==>
      Find(cols, fields[s].name) < Find(cols, fields[t].name)
  }

  ghost predicate WellFormed(alts: seq<Alternative>)
  {
    && NamesApart(alts) && ConflictsAreNear(alts)
    && forall i :: 0 <= i < |alts| ==> InOrder(Union(alts[..i]), alts[i].fields)
  }

  /** The column is a field of one of the first n alternatives, or was one before the next came. */
  predicate ComesFrom(c: FieldDef, alts: seq<Alternative>, n: nat, b: int, t: int)
  {
    IsField(alts, b, t) && b < n
    && (c == alts[b].fields[t] || (b + 1 < n && c.name == Qualified(alts[b].name, alts[b].fields[t].name)))
  }

  ghost predicate Origin(c: FieldDef, alts: seq<Alternative>, n: nat)
  {
    exists b, t :: ComesFrom(c, alts, n, b, t)
  }

  ghost predicate Origins(cols: seq<FieldDef>, alts: seq<Alternative>, n: nat)
  {
    forall q :: 0 <= q < |cols| ==> Origin(cols[q], alts, n)
  }

  /** What merging keeps of the alternatives before n. */
  ghost predicate Settled(cols: seq<FieldDef>, alts: seq<Alternative>, n: nat)
    requires n <= |alts|
  {
    forall b :: 0 <= b < n ==> Placed(cols, alts[b]) && Named(cols, alts[b])
  }

  function PrevName(alts: seq<Alternative>, n: nat): Text
    requires n < |alts|
  {
    if n == 0 then [] else alts[n - 1].name
  }

  predicate HasField(alts: seq<Alternative>, b: int, name: Text)
  {
    0 <= b < |alts| && exists t :: 0 <= t < |alts[b].fields| && alts[b].fields[t].name == name
  }

  // ---------- the alternative being merged ----------

  /** So far: the first |at| fields have columns, the others up to j wait, and later shared fields are further on. */
  ghost predicate Going(m: Merging, fields: seq<FieldDef>, j: nat, at: seq<nat>)
  {
    && j <= |fields| && |at| + |m.pending| == j && m.pending == fields[|at|..j] && Increasing(at)
    && (forall t :: 0 <= t < |at| ==>
      Find(m.cols, fields[t].name) == at[t] < |m.cols| && m.cols[at[t]].ty == fields[t].ty)
    && (forall s :: 0 <= s < |m.pending| ==> !Has(m.cols, m.pending[s].name))
    && (forall t :: j <= t < |fields| && Has(m.cols, fields[t].name) && at != [] ==>
      at[|at| - 1] < Find(m.cols, fields[t].name))
    && (forall s, t :: j <= s < t < |fields| && Has(m.cols, fields[s].name) && Has(m.cols, fields[t].name) ==>
          Find(m.cols, fields[s].name) < Find(m.cols, fields[t].name))
  }

  predicate DistinctNames(fields: seq<FieldDef>)
  {
    forall s, t :: 0 <= s < t < |fields| ==> fields[s].name != fields[t].name
  }

  /** A name other than the new ones is found where its column went. */
  lemma FindMoved(m: Merging, prev: Text, f: FieldDef, x: Text)
    requires Has(m.cols, f.name) && x != f.name && (Renames(m, f) == 1 ==> x != Qualified(prev, f.name))
    requires forall s :: 0 <= s < |m.pending| ==> m.pending[s].name != x
    ensures var c := MergeField(m, prev, f).cols;
      && (Has(c, x) <==> Has(m.cols, x))
      && (Has(m.cols, x) ==> Find(c, x) == Moved(Find(m.cols, f.name), |m.pending|, Renames(m, f), Find(m.cols, x)))
  {
    hide Qualified, MergeField, Find;
    StepShape(m, prev, f);
    var k, n, d := Find(m.cols, f.name), |m.pending|, Renames(m, f);
    var c := MergeField(m, prev, f).cols;
    forall q | k <= q < k + n ensures c[q].name != x {
      assert c[k + (q - k)] == m.pending[q - k];
    }
    forall q | 0 <= q < |c| && c[q].name == x
      ensures exists p :: 0 <= p < |m.cols| && q == Moved(k, n, d, p) && m.cols[p].name == x && p != k
    {
      var p := if q < k then q else q - n - d;
      assert q == Moved(k, n, d, p);
    }
    if Has(m.cols, x) {
      var p := Find(m.cols, x);
      assert c[Moved(k, n, d, p)] == m.cols[p];
      FindIs(c, x, Moved(k, n, d, p));
    }
  }

  /** The places of the fields up to j, when field j is placed. */
  function NextPlaces(m: Merging, f: FieldDef, at: seq<nat>): (r: seq<nat>)
  {
    var k, n := Find(m.cols, f.name), |m.pending|;
    if k == |m.cols| then at else at + seq(n, s requires 0 <= s < n => k + s) + [k + n + Renames(m, f)]
  }

  lemma GoingStep(m: Merging, prev: Text, fields: seq<FieldDef>, j: nat, at: seq<nat>)
    requires Going(m, fields, j, at) && j < |fields| && DistinctNames(fields)
    requires Renames(m, fields[j]) == 1 ==> forall t :: 0 <= t < |fields| ==>
      fields[t].name != Qualified(prev, fields[j].name)
    ensures Going(MergeField(m, prev, fields[j]), fields, j + 1, NextPlaces(m, fields[j], at))
  {
    hide Qualified;
    var f := fields[j];
    if Has(m.cols, f.name) {
      GoingFound(m, prev, fields, j, at);
    } else {
      var m' := MergeField(m, prev, f);
      assert m'.pending == fields[|at|..j + 1];
    }
  }

  lemma GoingFound(m: Merging, prev: Text, fields: seq<FieldDef>, j: nat, at: seq<nat>)
    requires Going(m, fields, j, at) && j < |fields| && DistinctNames(fields) && Has(m.cols, fields[j].name)
    requires Renames(m, fields[j]) == 1 ==> forall t :: 0 <= t < |fields| ==>
      fields[t].name != Qualified(prev, fields[j].name)
    ensures Going(MergeField(m, prev, fields[j]), fields, j + 1, NextPlaces(m, fields[j], at))
  {
    hide Qualified, MergeField, Find;
    var f := fields[j];
    var at' := NextPlaces(m, f, at);
    var m' := MergeField(m, prev, f);
    StepShape(m, prev, f);
    assert m'.pending == fields[|at'|..j + 1];
    forall t | 0 <= t < |at'|
      ensures Find(m'.cols, fields[t].name) == at'[t] < |m'.cols| && m'.cols[at'[t]].ty == fields[t].ty {
      PlaceFound(m, prev, fields, j, at, t);
    }
    forall t | j + 1 <= t < |fields|
      ensures Has(m'.cols, fields[t].name) <==> Has(m.cols, fields[t].name)
      ensures Has(m.cols, fields[t].name) ==>
        Find(m'.cols, fields[t].name) ==
          Moved(Find(m.cols, f.name), |m.pending|, Renames(m, f), Find(m.cols, fields[t].name))
    {
      FindMoved(m, prev, f, fields[t].name);
    }
  }

  lemma PlaceFound(m: Merging, prev: Text, fields: seq<FieldDef>, j: nat, at: seq<nat>, t: nat)
    requires Going(m, fields, j, at) && j < |fields| && DistinctNames(fields) && Has(m.cols, fields[j].name) && t <= j
    requires Renames(m, fields[j]) == 1 ==> forall t :: 0 <= t < |fields| ==>
      fields[t].name != Qualified(prev, fields[j].name)
    ensures var at', m' := NextPlaces(m, fields[j], at), MergeField(m, prev, fields[j]);
      |at'| == j + 1 && Find(m'.cols, fields[t].name) == at'[t] < |m'.cols| && m'.cols[at'[t]].ty == fields[t].ty
  {
    hide Qualified, MergeField, Find, Renames, NextPlaces, Going, DistinctNames;
    NextPlacesAt(m, fields[j], at, t);
    GoingCount(m, fields, j, at);
    if t < |at| {
      PlaceKept(m, prev, fields, j, at, t);
    } else if t < j {
      PlaceWaiting(m, prev, fields, j, at, t - |at|);
    } else {
      PlaceItself(m, prev, fields, j, at);
    }
  }

  lemma GoingCount(m: Merging, fields: seq<FieldDef>, j: nat, at: seq<nat>)
    requires Going(m, fields, j, at)
    ensures |at| + |m.pending| == j && forall s :: 0 <= s < |m.pending| ==> m.pending[s] == fields[|at| + s]
  {
  }

  lemma NextPlacesAt(m: Merging, f: FieldDef, at: seq<nat>, t: nat)
    requires Has(m.cols, f.name)
    ensures var at', k, n := NextPlaces(m, f, at), Find(m.cols, f.name), |m.pending|;
      && |at'| == |at| + n + 1
      && (t <= |at| + n ==>
        at'[t] == if t < |at| then at[t] else if t < |at| + n then k + (t - |at|) else k + n + Renames(m, f))
  {
    hide Find, Renames;
  }

  /** The fields placed before are before the one found. */
  lemma PlaceKept(m: Merging, prev: Text, fields: seq<FieldDef>, j: nat, at: seq<nat>, t: nat)
    requires Going(m, fields, j, at) && j < |fields| && DistinctNames(fields) && Has(m.cols, fields[j].name) && t < |at|
    requires Renames(m, fields[j]) == 1 ==> fields[t].name != Qualified(prev, fields[j].name)
    ensures var c := MergeField(m, prev, fields[j]).cols;
      Find(c, fields[t].name) == at[t] < |c| && c[at[t]].ty == fields[t].ty
  {
    hide Qualified, MergeField, Find;
    var f := fields[j];
    StepShape(m, prev, f);
    FindMoved(m, prev, f, fields[t].name);
    assert MergeField(m, prev, f).cols[Moved(Find(m.cols, f.name), |m.pending|, Renames(m, f), at[t])] == m.cols[at[t]];
  }

  /** The waiting fields go just before the one found. */
  lemma PlaceWaiting(m: Merging, prev: Text, fields: seq<FieldDef>, j: nat, at: seq<nat>, s: nat)
    requires Going(m, fields, j, at) && j < |fields| && DistinctNames(fields) && Has(m.cols, fields[j].name) &&
             s < |m.pending|
    ensures var c, p := MergeField(m, prev, fields[j]).cols, Find(m.cols, fields[j].name) + s;
      Find(c, fields[|at| + s].name) == p < |c| && c[p] == fields[|at| + s]
  {
    hide Qualified, MergeField, Find;
    var f := fields[j];
    var k, n, d := Find(m.cols, f.name), |m.pending|, Renames(m, f);
    var c := MergeField(m, prev, f).cols;
    StepShape(m, prev, f);
    var g := m.pending[s];
    assert g == fields[|at| + s] && c[k + s] == g;
    forall q | 0 <= q < k ensures c[q].name != g.name {
      assert c[Moved(k, n, d, q)] == m.cols[q];
    }
    forall q | k <= q < k + s ensures c[q].name != g.name {
      assert c[k + (q - k)] == m.pending[q - k] == fields[|at| + (q - k)];
    }
    FindIs(c, g.name, k + s);
  }

  /** The field found has the column of its name, or a new one after it. */
  lemma PlaceItself(m: Merging, prev: Text, fields: seq<FieldDef>, j: nat, at: seq<nat>)
    requires Going(m, fields, j, at) && j < |fields| && DistinctNames(fields) && Has(m.cols, fields[j].name)
    requires Renames(m, fields[j]) == 1 ==> fields[j].name != Qualified(prev, fields[j].name)
    ensures var c, p :=
        MergeField(m, prev, fields[j]).cols, Find(m.cols, fields[j].name) + |m.pending| + Renames(m, fields[j]);
      Find(c, fields[j].name) == p < |c| && c[p].ty == fields[j].ty
  {
    hide Qualified, MergeField, Find;
    var f := fields[j];
    var k, n, d := Find(m.cols, f.name), |m.pending|, Renames(m, f);
    var c := MergeField(m, prev, f).cols;
    StepShape(m, prev, f);
    forall q | 0 <= q < k ensures c[q].name != f.name {
      assert c[Moved(k, n, d, q)] == m.cols[q];
    }
    forall q | k <= q < k + n ensures c[q].name != f.name {
      assert c[k + (q - k)] == m.pending[q - k] == fields[|at| + (q - k)];
    }
    FindIs(c, f.name, k + n + d);
  }

  // ---------- the alternatives before ----------

  lemma OriginLater(c: FieldDef, alts: seq<Alternative>, n: nat)
    requires Origin(c, alts, n)
    ensures Origin(c, alts, n + 1)
  {
    var b, t :| ComesFrom(c, alts, n, b, t);
    assert ComesFrom(c, alts, n + 1, b, t);
  }

  /** The state of merging alternative n: columns from it and those before, which keep their places. */
  ghost predicate Merges(m: Merging, alts: seq<Alternative>, n: nat, j: nat, at: seq<nat>)
  {
    && n < |alts| && Origins(m.cols, alts, n + 1) && Settled(m.cols, alts, n) && Going(m, alts[n].fields, j, at)
  }

  lemma WaitingAreFields(m: Merging, alts: seq<Alternative>, n: nat, j: nat, at: seq<nat>, s: nat)
    requires n < |alts| && Going(m, alts[n].fields, j, at) && s < |m.pending|
    ensures IsField(alts, n, |at| + s) && m.pending[s] == alts[n].fields[|at| + s] && !Has(m.cols, m.pending[s].name)
  {
  }

  lemma ConflictMeansPrevious(m: Merging, alts: seq<Alternative>, n: nat, j: nat, at: seq<nat>)
    requires Merges(m, alts, n, j, at) && j < |alts[n].fields| && NamesApart(alts) && ConflictsAreNear(alts)
    requires Renames(m, alts[n].fields[j]) == 1
    ensures n > 0 && HasField(alts, n - 1, alts[n].fields[j].name)
  {
    hide Qualified;
    var f := alts[n].fields[j];
    var k := Find(m.cols, f.name);
    var b, t :| ComesFrom(m.cols[k], alts, n + 1, b, t);
    assert IsField(alts, n, j) && Unalike(alts, b, t, n, j);
  }

  lemma OriginAt(m: Merging, alts: seq<Alternative>, n: nat, j: nat, at: seq<nat>, q: nat)
    requires Merges(m, alts, n, j, at) && j < |alts[n].fields| && NamesApart(alts) && ConflictsAreNear(alts)
    requires Has(m.cols, alts[n].fields[j].name)
    requires q < |MergeField(m, PrevName(alts, n), alts[n].fields[j]).cols|
    ensures Origin(MergeField(m, PrevName(alts, n), alts[n].fields[j]).cols[q], alts, n + 1)
  {
    hide Qualified, MergeField, Find, Settled, NamesApart, ConflictsAreNear, Going;
    var f := alts[n].fields[j];
    StepShape(m, PrevName(alts, n), f);
    var k, w, d := Find(m.cols, f.name), |m.pending|, Renames(m, f);
    var c := MergeField(m, PrevName(alts, n), f).cols;
    if k <= q < k + w {
      WaitingAreFields(m, alts, n, j, at, q - k);
      assert c[k + (q - k)] == m.pending[q - k];
      assert ComesFrom(c[q], alts, n + 1, n, |at| + (q - k));
    } else if d == 1 && q == k + w {
      ConflictMeansPrevious(m, alts, n, j, at);
      var t :| 0 <= t < |alts[n - 1].fields| && alts[n - 1].fields[t].name == f.name;
      assert ComesFrom(c[q], alts, n + 1, n - 1, t);
    } else if d == 1 && q == k + w + 1 {
      assert ComesFrom(c[q], alts, n + 1, n, j);
    } else if q != k + w {
      var p := if q < k then q else q - w - d;
      assert c[Moved(k, w, d, p)] == m.cols[p];
    }
  }

  lemma OriginsStep(m: Merging, alts: seq<Alternative>, n: nat, j: nat, at: seq<nat>)
    requires Merges(m, alts, n, j, at) && j < |alts[n].fields| && NamesApart(alts) && ConflictsAreNear(alts)
    ensures Origins(MergeField(m, PrevName(alts, n), alts[n].fields[j]).cols, alts, n + 1)
  {
    hide Qualified, MergeField, Find, Settled, Origin, NamesApart, ConflictsAreNear;
    var f := alts[n].fields[j];
    if Has(m.cols, f.name) {
      var c := MergeField(m, PrevName(alts, n), f).cols;
      forall q | 0 <= q < |c| ensures Origin(c[q], alts, n + 1) {
        OriginAt(m, alts, n, j, at, q);
      }
    } else {
      assert MergeField(m, PrevName(alts, n), f).cols == m.cols by { Unplaced(m, PrevName(alts, n), f); }
    }
  }

  lemma Unplaced(m: Merging, prev: Text, f: FieldDef)
    requires !Has(m.cols, f.name)
    ensures MergeField(m, prev, f).cols == m.cols
  {
  }

  lemma WaitingApart(m: Merging, alts: seq<Alternative>, n: nat, j: nat, at: seq<nat>, b: nat, t: nat, s: nat)
    requires n < |alts| && Going(m, alts[n].fields, j, at) && NamesApart(alts) && IsField(alts, b, t)
    requires Has(m.cols, alts[b].fields[t].name) && s < |m.pending|
    ensures !Matches(m.pending[s], alts[b].name, alts[b].fields[t])
  {
    hide Qualified, Find, Going, Has;
    WaitingAreFields(m, alts, n, j, at, s);
    assert Unalike(alts, b, t, n, |at| + s);
  }

  lemma RenameApart(m: Merging, alts: seq<Alternative>, n: nat, j: nat, at: seq<nat>, b: nat, t: nat)
    requires Merges(m, alts, n, j, at) && j < |alts[n].fields| && NamesApart(alts) && ConflictsAreNear(alts)
    requires n < |alts| && IsField(alts, b, t) && Renames(m, alts[n].fields[j]) == 1
    ensures var q := Qualified(PrevName(alts, n), alts[n].fields[j].name); var g := alts[b].fields[t].name;
      q != g && (q == Qualified(alts[b].name, g) ==> alts[n].fields[j].name == g && b + 1 == n)
  {
    hide Qualified, Merges, Renames;
    ConflictMeansPrevious(m, alts, n, j, at);
    var s :| 0 <= s < |alts[n - 1].fields| && alts[n - 1].fields[s].name == alts[n].fields[j].name;
    assert IsField(alts, n - 1, s) && Unalike(alts, n - 1, s, b, t);
  }

  lemma ApartFromEarlier(m: Merging, alts: seq<Alternative>, n: nat, j: nat, at: seq<nat>, b: nat, t: nat)
    requires Merges(m, alts, n, j, at) && j < |alts[n].fields| && NamesApart(alts) && ConflictsAreNear(alts)
    requires b < n && t < |alts[b].fields|
    ensures Apart(m, PrevName(alts, n), alts[n].fields[j], alts[b].name, alts[b].fields[t])
  {
    hide Qualified, Find, Going, Matches, Has, Origins, Placed, Renames;
    var f, g := alts[n].fields[j], alts[b].fields[t];
    assert IsField(alts, b, t) && IsField(alts, n, j) && Unalike(alts, b, t, n, j);
    assert Named(m.cols, alts[b]);
    forall s | 0 <= s < |m.pending| ensures !Matches(m.pending[s], alts[b].name, g) {
      WaitingApart(m, alts, n, j, at, b, t, s);
    }
    if Renames(m, f) == 1 { RenameApart(m, alts, n, j, at, b, t); }
  }

  /** An earlier alternative keeps its places through a step. */
  lemma PlacedStep(m: Merging, alts: seq<Alternative>, n: nat, j: nat, at: seq<nat>, b: nat)
    requires Merges(m, alts, n, j, at) && j < |alts[n].fields| && NamesApart(alts) && ConflictsAreNear(alts) && b < n
    ensures var c := MergeField(m, PrevName(alts, n), alts[n].fields[j]).cols; Placed(c, alts[b]) && Named(c, alts[b])
  {
    hide Qualified, MergeField, Find, Has, KeyAt, Origins, Going, Apart;
    var f, prev := alts[n].fields[j], PrevName(alts, n);
    if Has(m.cols, f.name) {
      var places :| IsPlaced(m.cols, alts[b], places);
      var k, w, d := Find(m.cols, f.name), |m.pending|, Renames(m, f);
      var c := MergeField(m, prev, f).cols;
      var moved := seq(|places|, t requires 0 <= t < |places| => Moved(k, w, d, places[t]));
      forall t | 0 <= t < |moved|
        ensures KeyAt(c, alts[b].name, alts[b].fields[t], moved[t]) && Has(c, alts[b].fields[t].name) {
        FieldStep(m, alts, n, j, at, b, t, places[t]);
      }
      assert IsPlaced(c, alts[b], moved);
    } else {
      Unplaced(m, prev, f);
    }
  }

  lemma FieldStep(m: Merging, alts: seq<Alternative>, n: nat, j: nat, at: seq<nat>, b: nat, t: nat, p: nat)
    requires Merges(m, alts, n, j, at) && j < |alts[n].fields| && NamesApart(alts) && ConflictsAreNear(alts) && b < n
    requires t < |alts[b].fields| && KeyAt(m.cols, alts[b].name, alts[b].fields[t], p) &&
             Has(m.cols, alts[n].fields[j].name)
    ensures var f := alts[n].fields[j]; var c := MergeField(m, PrevName(alts, n), f).cols;
      && KeyAt(c, alts[b].name, alts[b].fields[t], Moved(Find(m.cols, f.name), |m.pending|, Renames(m, f), p))
      && Has(c, alts[b].fields[t].name)
  {
    hide Qualified, MergeField, Find, Going, Origins, Apart, Moved;
    var f, g, prev := alts[n].fields[j], alts[b].fields[t], PrevName(alts, n);
    ApartFromEarlier(m, alts, n, j, at, b, t);
    PlainConflict(m, alts, n, j, b, t, p);
    KeyMoves(m, prev, f, alts[b].name, g, p);
    StillNamed(m, alts, n, j, at, b, t);
  }

  /** If the renamed column is this field's, then the field is of the alternative just before. */
  lemma PlainConflict(m: Merging, alts: seq<Alternative>, n: nat, j: nat, b: nat, t: nat, p: nat)
    requires n < |alts| && j < |alts[n].fields| && NamesApart(alts) && ConflictsAreNear(alts) && b < n
    requires t < |alts[b].fields| && KeyAt(m.cols, alts[b].name, alts[b].fields[t], p)
    ensures p == Find(m.cols, alts[n].fields[j].name) && m.cols[p].ty != alts[n].fields[j].ty ==>
      alts[b].name == PrevName(alts, n)
  {
    hide Qualified;
    assert IsField(alts, b, t) && IsField(alts, n, j) && Unalike(alts, b, t, n, j);
  }

  lemma StillNamed(m: Merging, alts: seq<Alternative>, n: nat, j: nat, at: seq<nat>, b: nat, t: nat)
    requires Merges(m, alts, n, j, at) && j < |alts[n].fields| && NamesApart(alts) && ConflictsAreNear(alts) && b < n
    requires t < |alts[b].fields| && Has(m.cols, alts[n].fields[j].name)
    ensures Has(MergeField(m, PrevName(alts, n), alts[n].fields[j]).cols, alts[b].fields[t].name)
  {
    hide Qualified, MergeField, Find, Going, Origins, Placed, Renames;
    var f, g, prev := alts[n].fields[j], alts[b].fields[t], PrevName(alts, n);
    assert IsField(alts, b, t) && Named(m.cols, alts[b]);
    if g.name == f.name {
      StepShape(m, prev, f);
      RenamesIs(m, f);
      NamedAt(MergeField(m, prev, f).cols, f.name, Find(m.cols, f.name) + |m.pending| + Renames(m, f));
    } else {
      if Renames(m, f) == 1 { RenameApart(m, alts, n, j, at, b, t); }
      forall s | 0 <= s < |m.pending| ensures m.pending[s].name != g.name {
        WaitingApart(m, alts, n, j, at, b, t, s);
      }
      FindMoved(m, prev, f, g.name);
    }
  }

  lemma RenamesIs(m: Merging, f: FieldDef)
    ensures Renames(m, f) == 0 || Renames(m, f) == 1
    ensures Has(m.cols, f.name) ==> m.cols[Find(m.cols, f.name)].name == f.name
  {
  }

  lemma {:induction false} NamedAt(cols: seq<FieldDef>, name: Text, p: nat)
    requires p < |cols| && cols[p].name == name
    ensures Has(cols, name)
  {
  }

  // ---------- the whole merge ----------

  lemma DistinctFields(alts: seq<Alternative>, n: nat)
    requires n < |alts| && NamesApart(alts)
    ensures DistinctNames(alts[n].fields)
  {
    hide Qualified;
    forall s, t | 0 <= s < t < |alts[n].fields| ensures alts[n].fields[s].name != alts[n].fields[t].name {
      assert IsField(alts, n, s) && IsField(alts, n, t);
    }
  }

  lemma MergeStep(m: Merging, alts: seq<Alternative>, n: nat, j: nat, at: seq<nat>)
    requires Merges(m, alts, n, j, at) && n < |alts| && j < |alts[n].fields| && NamesApart(alts) &&
             ConflictsAreNear(alts)
    ensures Merges(MergeField(m, PrevName(alts, n), alts[n].fields[j]), alts, n, j + 1,
                   NextPlaces(m, alts[n].fields[j], at))
  {
    hide Qualified, MergeField, Find, Going, Placed, NextPlaces, Renames, Named, Origin;
    DistinctFields(alts, n);
    OriginsStep(m, alts, n, j, at);
    forall b | 0 <= b < n
      ensures var c := MergeField(m, PrevName(alts, n), alts[n].fields[j]).cols; Placed(c, alts[b]) && Named(c, alts[b])
    {
      PlacedStep(m, alts, n, j, at, b);
    }
    if Renames(m, alts[n].fields[j]) == 1 {
      forall t | 0 <= t < |alts[n].fields|
        ensures alts[n].fields[t].name != Qualified(PrevName(alts, n), alts[n].fields[j].name)
      {
        assert IsField(alts, n, t);
        RenameApart(m, alts, n, j, at, n, t);
      }
    }
    GoingStep(m, PrevName(alts, n), alts[n].fields, j, at);
  }

  ghost predicate IsMerging(m: Merging, alts: seq<Alternative>, n: nat, j: nat)
  {
    exists at :: Merges(m, alts, n, j, at)
  }

  lemma MergeStart(alts: seq<Alternative>, n: nat, cols: seq<FieldDef>)
    requires n < |alts| && Origins(cols, alts, n) && Settled(cols, alts, n) && InOrder(cols, alts[n].fields)
    ensures Merges(Merging(cols, []), alts, n, 0, [])
  {
    hide Placed, Named, Find, Origin;
    forall q | 0 <= q < |cols| ensures Origin(cols[q], alts, n + 1) {
      OriginLater(cols[q], alts, n);
    }
    assert alts[n].fields[0..0] == [];
  }

  lemma {:induction false} MergesTo(alts: seq<Alternative>, n: nat, cols: seq<FieldDef>, j: nat)
    requires n < |alts| && Origins(cols, alts, n) && Settled(cols, alts, n) && InOrder(cols, alts[n].fields)
    requires j <= |alts[n].fields| && NamesApart(alts) && ConflictsAreNear(alts)
    ensures IsMerging(MergeFields(cols, PrevName(alts, n), alts[n].fields[..j]), alts, n, j)
  {
    hide Merges, Origins, Settled, InOrder, NextPlaces, MergeField;
    if j == 0 {
      MergeStart(alts, n, cols);
      var none: seq<nat> := [];
      assert alts[n].fields[..j] == [];
      assert Merges(MergeFields(cols, PrevName(alts, n), alts[n].fields[..j]), alts, n, j, none);
    } else {
      MergesTo(alts, n, cols, j - 1);
      var m := MergeFields(cols, PrevName(alts, n), alts[n].fields[..j - 1]);
      var at :| Merges(m, alts, n, j - 1, at);
      MergeStep(m, alts, n, j - 1, at);
      assert alts[n].fields[..j][..j - 1] == alts[n].fields[..j - 1];
      assert Merges(MergeField(m, PrevName(alts, n), alts[n].fields[j - 1]), alts, n, j,
        NextPlaces(m, alts[n].fields[j - 1], at));
    }
  }

  /** No column of the alternatives up to n looks like a renamed field of n. */
  lemma NotQualifiedYet(alts: seq<Alternative>, n: nat, cols: seq<FieldDef>, t: nat, q: nat)
    requires n < |alts| && Origins(cols, alts, n + 1) && NamesApart(alts) && t < |alts[n].fields| && q < |cols|
    ensures cols[q].name != Qualified(alts[n].name, alts[n].fields[t].name)
  {
    hide Qualified;
    var b, s :| ComesFrom(cols[q], alts, n + 1, b, s);
    assert IsField(alts, n, t) && Unalike(alts, n, t, b, s) && Unalike(alts, b, s, n, t);
  }

  /** At the end the waiting fields go last, and the alternative has its places. */
  lemma MergeEnd(m: Merging, alts: seq<Alternative>, n: nat, at: seq<nat>)
    requires n < |alts| && Merges(m, alts, n, |alts[n].fields|, at) && NamesApart(alts)
    ensures var cols := m.cols + m.pending; Origins(cols, alts, n + 1) && Settled(cols, alts, n + 1)
  {
    hide Qualified, Find, Has, Placed, Named, Origin, Merges, Going;
    var cols := m.cols + m.pending;
    EndOrigins(m, alts, n, at);
    forall b | 0 <= b < n ensures Placed(cols, alts[b]) && Named(cols, alts[b]) {
      MergesSettled(m, alts, n, at, b);
      Appended(m.cols, m.pending, alts[b]);
    }
    EndPlaces(m, alts, n, at);
    assert Settled(cols, alts, n + 1);
  }

  lemma MergesSettled(m: Merging, alts: seq<Alternative>, n: nat, at: seq<nat>, b: nat)
    requires n < |alts| && Merges(m, alts, n, |alts[n].fields|, at) && b < n
    ensures Placed(m.cols, alts[b]) && Named(m.cols, alts[b])
  {
    hide Placed, Named, Going, Origins;
  }

  lemma EndOrigins(m: Merging, alts: seq<Alternative>, n: nat, at: seq<nat>)
    requires n < |alts| && Merges(m, alts, n, |alts[n].fields|, at)
    ensures Origins(m.cols + m.pending, alts, n + 1)
  {
    hide Qualified, Find, Has, Placed, Named, Going;
    var cols := m.cols + m.pending;
    forall q | 0 <= q < |cols| ensures Origin(cols[q], alts, n + 1) {
      if q < |m.cols| {
        assert cols[q] == m.cols[q];
      } else {
        WaitingAreFields(m, alts, n, |alts[n].fields|, at, q - |m.cols|);
        assert ComesFrom(cols[q], alts, n + 1, n, |at| + (q - |m.cols|));
      }
    }
  }

  lemma Appended(cols: seq<FieldDef>, more: seq<FieldDef>, a: Alternative)
    requires Placed(cols, a) && Named(cols, a)
    ensures Placed(cols + more, a) && Named(cols + more, a)
  {
    hide Find;
    var at :| IsPlaced(cols, a, at);
    forall t | 0 <= t < |at|
      ensures KeyAt(cols + more, a.name, a.fields[t], at[t]) && Has(cols + more, a.fields[t].name) {
      var p := Find(cols, a.fields[t].name);
      NamedAt(cols + more, a.fields[t].name, p);
    }
    assert IsPlaced(cols + more, a, at);
  }

  lemma EndPlaces(m: Merging, alts: seq<Alternative>, n: nat, at: seq<nat>)
    requires n < |alts| && Merges(m, alts, n, |alts[n].fields|, at) && NamesApart(alts)
    ensures Placed(m.cols + m.pending, alts[n]) && Named(m.cols + m.pending, alts[n])
  {
    hide Qualified, Find, Settled;
    var a, cols := alts[n], m.cols + m.pending;
    var places := at + seq(|m.pending|, s requires 0 <= s < |m.pending| => |m.cols| + s);
    EndOrigins(m, alts, n, at);
    DistinctFields(alts, n);
    forall t | 0 <= t < |places| ensures KeyAt(cols, a.name, a.fields[t], places[t]) && Has(cols, a.fields[t].name) {
      EndPlace(m, a.fields, at, t);
      forall q | 0 <= q < places[t] ensures !Matches(cols[q], a.name, a.fields[t]) {
        NotQualifiedYet(alts, n, cols, t, q);
      }
      NamedAt(cols, a.fields[t].name, places[t]);
    }
    assert IsPlaced(cols, a, places);
  }

  lemma EndPlace(m: Merging, fields: seq<FieldDef>, at: seq<nat>, t: nat)
    requires Going(m, fields, |fields|, at) && DistinctNames(fields) && t < |fields|
    ensures var cols := m.cols + m.pending; var p := if t < |at| then at[t] else |m.cols| + (t - |at|);
      && p < |cols| && cols[p].name == fields[t].name && cols[p].ty == fields[t].ty
      && forall q :: 0 <= q < p ==> cols[q].name != fields[t].name
  {
    hide Find;
    var cols := m.cols + m.pending;
    if t >= |at| {
      assert m.pending[t - |at|] == fields[t];
      forall q | 0 <= q < |m.cols| + (t - |at|) ensures cols[q].name != fields[t].name {
        if q >= |m.cols| { assert cols[q] == fields[|at| + (q - |m.cols|)]; }
      }
    }
  }

  lemma {:induction false} UnionPlaces(alts: seq<Alternative>, n: nat)
    requires n <= |alts| && WellFormed(alts)
    ensures Origins(Union(alts[..n]), alts, n) && Settled(Union(alts[..n]), alts, n)
  {
    hide Origins, Settled, Merges, InOrder, NamesApart, ConflictsAreNear, MergeFields, Union;
    if n == 0 {
      NothingMerged(alts, n);
    } else {
      UnionPlaces(alts, n - 1);
      var i := n - 1;
      MergesTo(alts, i, Union(alts[..i]), |alts[i].fields|);
      assert alts[i].fields[..|alts[i].fields|] == alts[i].fields;
      var m := MergeFields(Union(alts[..i]), PrevName(alts, i), alts[i].fields);
      var at :| Merges(m, alts, i, |alts[i].fields|, at);
      MergeEnd(m, alts, i, at);
      UnionOf(alts, n);
    }
  }

  lemma UnionOf(alts: seq<Alternative>, n: nat)
    requires 0 < n <= |alts|
    ensures var m := MergeFields(Union(alts[..n - 1]), PrevName(alts, n - 1), alts[n - 1].fields);
      Union(alts[..n]) == m.cols + m.pending
  {
    hide MergeFields;
    var first := alts[..n];
    assert first[..n - 1] == alts[..n - 1] && first[n - 1] == alts[n - 1];
    assert n > 1 ==> first[n - 2] == alts[n - 2];
  }

  lemma NothingMerged(alts: seq<Alternative>, n: nat)
    requires n == 0
    ensures Origins(Union(alts[..n]), alts, n) && Settled(Union(alts[..n]), alts, n)
  {
  }

  /** After the merge every alternative finds its fields, in order, under columns of their types. */
  lemma AlternativesArePlaced(alts: seq<Alternative>, b: nat)
    requires WellFormed(alts) && b < |alts|
    ensures Placed(Union(alts), alts[b])
  {
    hide Origins, Placed, Named, NamesApart, ConflictsAreNear, Union;
    UnionPlaces(alts, |alts|);
    assert alts[..|alts|] == alts;
  }

  // ---------- printing one alternative ----------

  predicate EndsWith(t: Text, end: Text)
  {
    |end| <= |t| && t[|t| - |end|..] == end
  }

  predicate StartsWith(t: Text, start: Text)
  {
    |start| <= |t| && t[..|start|] == start
  }

  /** []. */
  const ARRAY_SUFFIX: Text := [91, 93]

  /** What stands in a column that the alternative does not have. */
  function Filler(c: FieldDef, schema: Text, inTable: bool): Text
  {
    if EndsWith(c.ty, ARRAY_SUFFIX) then
      (if inTable then EscapeTable([OPEN_BRACE, CLOSE_BRACE]) else EscapeComposite([OPEN_BRACE, CLOSE_BRACE]))
    else if inTable && StartsWith(c.ty, schema) then NULL_FIELD
    else []
  }

  /** to_sql_value of a field at the head of the input: its text, and the input after it. */
  type Converter = (FieldDef, Bytes) -> (Text, Bytes)

  /** The fields one after the other. */
  function Converted(conv: Converter, fields: seq<FieldDef>, bin: Bytes): (r: (seq<Text>, Bytes))
    ensures |r.0| == |fields|
  {
    if fields == [] then ([], bin) else
      var n := |fields| - 1;
      var (texts, rest) := Converted(conv, fields[..n], bin);
      var (text, after) := conv(fields[n], rest);
      (texts + [text], after)
  }

  lemma {:induction false} ConvertedPrefix(conv: Converter, fields: seq<FieldDef>, bin: Bytes, n: nat)
    requires n <= |fields|
    ensures forall t :: 0 <= t < n ==> Converted(conv, fields, bin).0[t] == Converted(conv, fields[..n], bin).0[t]
    decreases |fields| - n
  {
    if n < |fields| {
      ConvertedPrefix(conv, fields, bin, n + 1);
      assert fields[..n + 1][..n] == fields[..n];
    } else {
      assert fields[..n] == fields;
    }
  }

  /** Parts one after the other. */
  function Joined(parts: seq<Bytes>): Bytes
  {
    if parts == [] then [] else Joined(parts[..|parts| - 1]) + parts[|parts| - 1]
  }

  /** The converter makes text of exactly a part, whatever follows it. */
  ghost predicate ReadsPart(conv: Converter, f: FieldDef, part: Bytes, text: Text)
  {
    forall more :: conv(f, part + more) == (text, more)
  }

  /** If each field's part is read as its text, the input is read part by part, in order and none left out. */
  lemma {:induction false} ConvertedReads(conv: Converter, fields: seq<FieldDef>, parts: seq<Bytes>, texts: seq<Text>,
          tail: Bytes)
    requires |fields| == |parts| == |texts|
    requires forall t :: 0 <= t < |fields| ==> ReadsPart(conv, fields[t], parts[t], texts[t])
    ensures Converted(conv, fields, Joined(parts) + tail) == (texts, tail)
  {
    if fields != [] {
      var n := |fields| - 1;
      ConvertedReads(conv, fields[..n], parts[..n], texts[..n], parts[n] + tail);
      assert Joined(parts) + tail == Joined(parts[..n]) + (parts[n] + tail);
      assert ReadsPart(conv, fields[n], parts[n], texts[n]);
      assert texts == texts[..n] + [texts[n]];
    } else {
      assert Joined(parts) + tail == tail;
    }
  }

  /** to_sql_values for a variant. Whatever its columns, it gives one value for each; and if the alternative has its
      places, it reads exactly the alternative's fields and puts each under the column at its place. */
  method ToSqlValues(conv: Converter, schema: Text, a: Alternative, cols: seq<FieldDef>, bin: Bytes, inTable: bool,
          ghost at: seq<nat>)
    returns (values: seq<Text>, rest: Bytes)
    ensures |values| == |cols|
    ensures IsPlaced(cols, a, at) ==> rest == Converted(conv, a.fields, bin).1
    ensures IsPlaced(cols, a, at) ==> forall t :: 0 <= t < |at| ==> values[at[t]] == Converted(conv, a.fields, bin).0[t]
    ensures IsPlaced(cols, a, at) ==> forall c :: 0 <= c < |cols| && c !in at ==>
      values[c] == Filler(cols[c], schema, inTable)
  {
    hide EscapeTable, EscapeComposite, Qualified, Filler, Converted;
    values, rest := [], bin;
    NoneConverted(conv, a.fields, bin);
    var n := 0;
    for c := 0 to |cols|
      invariant n <= |a.fields| && |values| == c
      invariant IsPlaced(cols, a, at) ==> Reached(cols, a, at, c, n)
      invariant rest == Converted(conv, a.fields[..n], bin).1
      invariant IsPlaced(cols, a, at) ==> forall t :: 0 <= t < n ==>
        values[at[t]] == Converted(conv, a.fields[..n], bin).0[t]
      invariant IsPlaced(cols, a, at) ==> forall q :: 0 <= q < c && q !in at ==>
        values[q] == Filler(cols[q], schema, inTable)
    {
      if IsPlaced(cols, a, at) { ReachedNext(cols, a, at, c, n); }
      if n < |a.fields| && Matches(cols[c], a.name, a.fields[n]) {
        OneMoreConverted(conv, a.fields, bin, n);
        var (text, after) := conv(a.fields[n], rest);
        values, rest := values + [text], after;
        n := n + 1;
      } else {
        values := values + [Filler(cols[c], schema, inTable)];
      }
    }
    if IsPlaced(cols, a, at) {
      assert n == |a.fields|;
      ConvertedPrefix(conv, a.fields, bin, n);
    }
    assert n == |a.fields| ==> a.fields[..n] == a.fields;
  }

  lemma NoneConverted(conv: Converter, fields: seq<FieldDef>, bin: Bytes)
    ensures Converted(conv, fields[..0], bin) == ([], bin)
  {
  }

  lemma OneMoreConverted(conv: Converter, fields: seq<FieldDef>, bin: Bytes, n: nat)
    requires n < |fields|
    ensures var before := Converted(conv, fields[..n], bin); var one := conv(fields[n], before.1);
      Converted(conv, fields[..n + 1], bin) == (before.0 + [one.0], one.1)
  {
    assert fields[..n + 1][..n] == fields[..n];
  }

  /** Before column c the first n fields have been seen, and no other. */
  predicate Reached(cols: seq<FieldDef>, a: Alternative, at: seq<nat>, c: nat, n: nat)
  {
    n <= |at| && (forall t :: 0 <= t < n ==> at[t] < c) && (forall t :: n <= t < |at| ==> c <= at[t])
  }

  lemma ReachedNext(cols: seq<FieldDef>, a: Alternative, at: seq<nat>, c: nat, n: nat)
    requires IsPlaced(cols, a, at) && Reached(cols, a, at, c, n) && c < |cols|
    ensures n < |a.fields| && Matches(cols[c], a.name, a.fields[n]) <==> n < |at| && at[n] == c
    ensures Reached(cols, a, at, c + 1, if n < |at| && at[n] == c then n + 1 else n)
    ensures c in at <==> n < |at| && at[n] == c
  {
    if n < |at| {
      assert KeyAt(cols, a.name, a.fields[n], at[n]);
    }
    if c in at {
      var t :| 0 <= t < |at| && at[t] == c;
    }
  }

  /** In a well-formed variant each field is printed under a column of its SQL type, and nothing is left unread. */
  lemma FieldsUnderTheirTypes(alts: seq<Alternative>, b: nat)
    requires WellFormed(alts) && b < |alts|
    ensures exists at :: IsPlaced(Union(alts), alts[b], at) &&
              (forall t :: 0 <= t < |at| ==> Union(alts)[at[t]].ty == alts[b].fields[t].ty)
  {
    hide Union;
    AlternativesArePlaced(alts, b);
    var at :| IsPlaced(Union(alts), alts[b], at);
    forall t | 0 <= t < |at| ensures Union(alts)[at[t]].ty == alts[b].fields[t].ty {
      assert KeyAt(Union(alts), alts[b].name, alts[b].fields[t], at[t]);
    }
  }

  // ---------- when the order of fields is right ----------

  /** Fields of one name have one type. */
  ghost predicate SameTypes(alts: seq<Alternative>)
  {
    forall a, s, b, t :: (IsField(alts, a, s) && IsField(alts, b, t)) ==>
      (alts[a].fields[s].name == alts[b].fields[t].name ==> alts[a].fields[s].ty == alts[b].fields[t].ty)
  }

  ghost predicate AreFields(cols: seq<FieldDef>, alts: seq<Alternative>)
  {
    forall q :: 0 <= q < |cols| ==> IsSomeField(cols[q], alts)
  }

  ghost predicate IsSomeField(c: FieldDef, alts: seq<Alternative>)
  {
    exists b, t :: IsField(alts, b, t) && c == alts[b].fields[t]
  }

  /** Columns and waiting fields are fields as they are, and none waits that has a column. */
  ghost predicate Plain(m: Merging, alts: seq<Alternative>)
  {
    AreFields(m.cols, alts) && AreFields(m.pending, alts) && forall s :: 0 <= s < |m.pending| ==>
      !Has(m.cols, m.pending[s].name)
  }

  lemma PlainStep(m: Merging, alts: seq<Alternative>, prev: Text, b: nat, j: nat)
    requires Plain(m, alts) && SameTypes(alts) && IsField(alts, b, j)
    ensures Plain(MergeField(m, prev, alts[b].fields[j]), alts) && Renames(m, alts[b].fields[j]) == 0
  {
    hide Find;
    var f := alts[b].fields[j];
    if Has(m.cols, f.name) {
      var a, s :| IsField(alts, a, s) && m.cols[Find(m.cols, f.name)] == alts[a].fields[s];
    }
  }

  /** With no renaming every column is found where it went. */
  lemma FindKept(m: Merging, prev: Text, f: FieldDef, x: Text)
    requires Renames(m, f) == 0 && Has(m.cols, x) && forall s :: 0 <= s < |m.pending| ==>
      !Has(m.cols, m.pending[s].name)
    ensures Has(MergeField(m, prev, f).cols, x)
    ensures Find(MergeField(m, prev, f).cols, x) ==
      if Has(m.cols, f.name) then Moved(Find(m.cols, f.name), |m.pending|, 0, Find(m.cols, x)) else Find(m.cols, x)
  {
    hide Qualified, Find, MergeField;
    if Has(m.cols, f.name) {
      StepShape(m, prev, f);
      var k, n, c := Find(m.cols, f.name), |m.pending|, MergeField(m, prev, f).cols;
      var p := Find(m.cols, x);
      assert c[Moved(k, n, 0, p)] == m.cols[p];
      forall q | 0 <= q < Moved(k, n, 0, p) ensures c[q].name != x {
        if k <= q < k + n {
          assert c[k + (q - k)] == m.pending[q - k];
        } else {
          var p' := if q < k then q else q - n;
          assert c[Moved(k, n, 0, p')] == m.cols[p'];
        }
      }
      FindIs(c, x, Moved(k, n, 0, p));
    } else {
      Unplaced(m, prev, f);
    }
  }

  /** Two columns stay in order while the fields of an alternative are merged. */
  lemma {:induction false} OrderThroughFields(alts: seq<Alternative>, b: nat, cols: seq<FieldDef>, prev: Text,
          j: nat, x: Text, y: Text)
    requires SameTypes(alts) && AreFields(cols, alts) && b < |alts| && j <= |alts[b].fields|
    requires Has(cols, x) && Has(cols, y) && Find(cols, x) < Find(cols, y)
    ensures var m := MergeFields(cols, prev, alts[b].fields[..j]);
      Plain(m, alts) && Has(m.cols, x) && Has(m.cols, y) && Find(m.cols, x) < Find(m.cols, y)
  {
    hide Find, MergeField, SameTypes, Plain;
    if j == 0 {
      PlainStart(cols, alts);
      assert alts[b].fields[..j] == [];
    } else {
      OrderThroughFields(alts, b, cols, prev, j - 1, x, y);
      var m := MergeFields(cols, prev, alts[b].fields[..j - 1]);
      var f := alts[b].fields[j - 1];
      assert IsField(alts, b, j - 1) && alts[b].fields[..j][..j - 1] == alts[b].fields[..j - 1];
      PlainStep(m, alts, prev, b, j - 1);
      NoneWaits(m, alts);
      FindKept(m, prev, f, x);
      FindKept(m, prev, f, y);
    }
  }

  lemma PlainStart(cols: seq<FieldDef>, alts: seq<Alternative>)
    requires AreFields(cols, alts)
    ensures Plain(Merging(cols, []), alts)
  {
  }

  lemma NoneWaits(m: Merging, alts: seq<Alternative>)
    requires Plain(m, alts)
    ensures forall s :: 0 <= s < |m.pending| ==> !Has(m.cols, m.pending[s].name)
  {
  }

  lemma {:induction false} PlainThroughFields(alts: seq<Alternative>, b: nat, cols: seq<FieldDef>, prev: Text, j: nat)
    requires SameTypes(alts) && AreFields(cols, alts) && b < |alts| && j <= |alts[b].fields|
    ensures Plain(MergeFields(cols, prev, alts[b].fields[..j]), alts)
  {
    hide Find, MergeField, SameTypes, Plain;
    if j == 0 {
      PlainStart(cols, alts);
      assert alts[b].fields[..j] == [];
    } else {
      PlainThroughFields(alts, b, cols, prev, j - 1);
      assert IsField(alts, b, j - 1) && alts[b].fields[..j][..j - 1] == alts[b].fields[..j - 1];
      PlainStep(MergeFields(cols, prev, alts[b].fields[..j - 1]), alts, prev, b, j - 1);
    }
  }

  lemma {:induction false} UnionIsFields(alts: seq<Alternative>, n: nat)
    requires SameTypes(alts) && n <= |alts|
    ensures AreFields(Union(alts[..n]), alts)
  {
    hide Union, SameTypes;
    if n == 0 {
      EmptyUnion(alts, n);
    } else {
      UnionIsFields(alts, n - 1);
      UnionOf(alts, n);
      assert alts[n - 1].fields[..|alts[n - 1].fields|] == alts[n - 1].fields;
      PlainThroughFields(alts, n - 1, Union(alts[..n - 1]), PrevName(alts, n - 1), |alts[n - 1].fields|);
      var m := MergeFields(Union(alts[..n - 1]), PrevName(alts, n - 1), alts[n - 1].fields);
      forall q | 0 <= q < |m.cols + m.pending|
        ensures IsSomeField((m.cols + m.pending)[q], alts)
      {
        if q < |m.cols| {
          assert (m.cols + m.pending)[q] == m.cols[q];
        } else {
          assert (m.cols + m.pending)[q] == m.pending[q - |m.cols|];
        }
      }
      assert AreFields(m.cols + m.pending, alts);
      assert Union(alts[..n]) == m.cols + m.pending;
    }
  }

  lemma EmptyUnion(alts: seq<Alternative>, n: nat)
    requires n == 0
    ensures |Union(alts[..n])| == 0
  {
  }

  /** Two columns stay in order through all later alternatives. */
  lemma {:induction false} OrderThroughUnion(alts: seq<Alternative>, i: nat, n: nat, x: Text, y: Text)
    requires SameTypes(alts) && i <= n <= |alts|
    requires Has(Union(alts[..i]), x) && Has(Union(alts[..i]), y) &&
             Find(Union(alts[..i]), x) < Find(Union(alts[..i]), y)
    ensures Has(Union(alts[..n]), x) && Has(Union(alts[..n]), y) &&
            Find(Union(alts[..n]), x) < Find(Union(alts[..n]), y)
    decreases n
  {
    hide Union, SameTypes, Find;
    if i < n {
      OrderThroughUnion(alts, i, n - 1, x, y);
      UnionIsFields(alts, n - 1);
      UnionOf(alts, n);
      var fields, before := alts[n - 1].fields, Union(alts[..n - 1]);
      assert fields[..|fields|] == fields;
      OrderThroughFields(alts, n - 1, before, PrevName(alts, n - 1), |fields|, x, y);
      var m := MergeFields(before, PrevName(alts, n - 1), fields);
      FindAppended(m.cols, m.pending, x);
      FindAppended(m.cols, m.pending, y);
    }
  }

  lemma FindAppended(cols: seq<FieldDef>, more: seq<FieldDef>, x: Text)
    requires Has(cols, x)
    ensures Find(cols + more, x) == Find(cols, x)
  {
    FindIs(cols + more, x, Find(cols, x));
  }

  /** Where names keep their types, every alternative has its places exactly when each, as it was merged, had its shared
      fields in the order of the columns so far. */
  lemma PlacedExactlyInOrder(alts: seq<Alternative>)
    requires NamesApart(alts) && SameTypes(alts)
    ensures (forall b :: 0 <= b < |alts| ==> Placed(Union(alts), alts[b]))
       <==> (forall i :: 0 <= i < |alts| ==> InOrder(Union(alts[..i]), alts[i].fields))
  {
    hide Union, NamesApart, Placed, Find;
    if forall i :: 0 <= i < |alts| ==> InOrder(Union(alts[..i]), alts[i].fields) {
      forall b | 0 <= b < |alts| ensures Placed(Union(alts), alts[b]) {
        AlternativesArePlaced(alts, b);
      }
    }
    if forall b :: 0 <= b < |alts| ==> Placed(Union(alts), alts[b]) {
      forall i | 0 <= i < |alts| ensures InOrder(Union(alts[..i]), alts[i].fields) {
        PlacedInOrder(alts, i);
      }
    }
  }

  lemma PlacedInOrder(alts: seq<Alternative>, i: nat)
    requires NamesApart(alts) && SameTypes(alts) && i < |alts| && Placed(Union(alts), alts[i])
    ensures InOrder(Union(alts[..i]), alts[i].fields)
  {
    hide Union, NamesApart, Find, SameTypes;
    var cols, fields, all := Union(alts[..i]), alts[i].fields, Union(alts);
    assert alts[..|alts|] == alts;
    var at :| IsPlaced(all, alts[i], at);
    UnionIsFields(alts, |alts|);
    forall s, t | 0 <= s < t < |fields| && Has(cols, fields[s].name) && Has(cols, fields[t].name)
      ensures Find(cols, fields[s].name) < Find(cols, fields[t].name)
    {
      KeyIsFind(alts, i, s, all, at[s]);
      KeyIsFind(alts, i, t, all, at[t]);
      var x, y := fields[s].name, fields[t].name;
      if Find(cols, y) < Find(cols, x) { OrderThroughUnion(alts, i, |alts|, y, x); }
    }
  }

  lemma KeyIsFind(alts: seq<Alternative>, i: nat, t: nat, cols: seq<FieldDef>, p: nat)
    requires NamesApart(alts) && IsField(alts, i, t) && AreFields(cols, alts) &&
             KeyAt(cols, alts[i].name, alts[i].fields[t], p)
    ensures Find(cols, alts[i].fields[t].name) == p
  {
    hide Find, Qualified;
    var b, s :| IsField(alts, b, s) && cols[p] == alts[b].fields[s];
    assert Unalike(alts, i, t, b, s);
    FindIs(cols, alts[i].fields[t].name, p);
  }

  // ---------- when it is not enough that alternatives agree ----------

  /** Three alternatives of which no two disagree on the order of their fields: b, then a, then a and b. */
  const AGREEING: seq<Alternative> :=
    [Alternative([1], [FieldDef([98], [116])]), Alternative([2], [FieldDef([97], [116])]),
     Alternative([3], [FieldDef([97], [116]), FieldDef([98], [116])])]

  /** The columns are b and a, so the third alternative has no places. */
  lemma AgreementIsNotEnough()
    ensures Union(AGREEING) == [FieldDef([98], [116]), FieldDef([97], [116])]
    ensures !Placed(Union(AGREEING), AGREEING[2])
  {
    hide Union, MergeFields, Placed, Find;
    ThirdIsNotPlaced();
    var a, b := FieldDef([97], [116]), FieldDef([98], [116]);
    MergeNew([], [], b);
    MergeNew([b], [1], a);
    MergeBoth(a, b);
    var alts := AGREEING;
    assert alts[..1][..0] == [] && alts[..2][..1] == alts[..1] && alts[..3] == alts;
    EmptyUnion(alts, 0);
    UnionOf(alts, 1);
    UnionOf(alts, 2);
    UnionOf(alts, 3);
    assert Union(alts[..1]) == [] + [b] == [b];
    assert Union(alts[..2]) == [b] + [a] == [b, a];
    assert Union(alts[..3]) == [b, a] + [];
  }

  lemma MergeNew(cols: seq<FieldDef>, prev: Text, f: FieldDef)
    requires !Has(cols, f.name)
    ensures MergeFields(cols, prev, [f]) == Merging(cols, [f])
  {
    assert [f][..0] == [];
    assert MergeFields(cols, prev, []) == Merging(cols, []);
    assert [] + [f] == [f];
  }

  lemma MergeBoth(a: FieldDef, b: FieldDef)
    requires a.name != b.name
    ensures MergeFields([b, a], [2], [a, b]) == Merging([b, a], [])
    ensures !Has([b], a.name) && !Has([], b.name)
  {
    var cols := [b, a];
    assert [a, b][..1] == [a] && [a][..0] == [];
    FindIs(cols, a.name, 1);
    FindIs(cols, b.name, 0);
    assert MergeFields(cols, [2], []) == Merging(cols, []);
    assert MergeFields(cols, [2], [a]) == MergeField(Merging(cols, []), [2], a);
    assert cols[..1] + [] + cols[1..] == cols && cols[..0] + [] + cols[0..] == cols;
  }

  lemma ThirdIsNotPlaced()
    ensures !Placed([FieldDef([98], [116]), FieldDef([97], [116])], AGREEING[2])
  {
    var a, b := FieldDef([97], [116]), FieldDef([98], [116]);
    var cols := [b, a];
    assert a.name[0] == 97 && b.name[0] == 98;
    assert |Qualified([3], a.name)| == 3 && |Qualified([3], b.name)| == 3;
    assert AGREEING[2].fields[0] == a && AGREEING[2].fields[1] == b;
    assert forall p: nat :: KeyAt(cols, [3], a, p) ==> p == 1;
    assert forall p: nat :: KeyAt(cols, [3], b, p) ==> p == 0;
  }
}
