/** A variant inside an SQL value: printed under its merged columns, and read back. */
module SqlVariants {
  import opened Bytes
  import opened Store
  import opened SqlText
  import opened SqlColumns

  /** What a column holds for an alternative that does not have it. */
  function NothingIn(ty: Type): Value
  {
    if ty.List? then Elements([]) else Null
  }

  /** The types of the columns, as far as their printing goes. */
  predicate ColumnTypes(cols: seq<FieldDef>, types: seq<Type>)
  {
    && |types| == |cols| && cols != []
    && forall c :: 0 <= c < |cols| ==>
         (types[c].List? <==> EndsWith(cols[c].ty, ARRAY_SUFFIX)) && (types[c].List? ==> !types[c].elem.List?)
  }

  /** The fields' values are each of the type of its column, and printed as to_sql_value prints it. */
  ghost predicate ArePrinted(conv: Converter, a: Alternative, bin: Bytes, at: seq<nat>, types: seq<Type>,
          vals: seq<Value>)
  {
    && |vals| == |at| == |a.fields|
    && forall t :: 0 <= t < |at| ==>
         at[t] < |types| && Fits(vals[t], types[at[t]])
         && Converted(conv, a.fields, bin).0[t] == Printed(vals[t], types[at[t]], false)
  }

  /** The fields' values are in their columns, and nothing is in the others. */
  ghost predicate Fills(conv: Converter, a: Alternative, cols: seq<FieldDef>, bin: Bytes, at: seq<nat>,
          types: seq<Type>, vals: seq<Value>, columns: seq<Value>)
  {
    && IsPlaced(cols, a, at) && ColumnTypes(cols, types) && |vals| == |at| && |columns| == |cols|
    && ArePrinted(conv, a, bin, at, types, vals) && (forall t :: 0 <= t < |at| ==> columns[at[t]] == vals[t])
    && forall c :: 0 <= c < |cols| && c !in at ==> columns[c] == NothingIn(types[c])
  }

  lemma {:induction false} AllFitEach(vals: seq<Value>, types: seq<Type>)
    requires |vals| == |types| && forall c :: 0 <= c < |types| ==> Fits(vals[c], types[c])
    ensures AllFit(vals, types)
  {
    hide Fits;
    if types != [] {
      AllFitEach(vals[1..], types[1..]);
    }
  }

  /** The filler of a column is what nothing in it is printed as. */
  lemma FillerPrinted(c: FieldDef, schema: Text, ty: Type)
    requires ty.List? <==> EndsWith(c.ty, ARRAY_SUFFIX)
    requires ty.List? ==> !ty.elem.List?
    ensures Fits(NothingIn(ty), ty) && Filler(c, schema, false) == Printed(NothingIn(ty), ty, false)
  {
    hide EscapeComposite;
    if ty.List? {
      var none: seq<Value> := [];
      assert ElementItems(none, ty.elem) == [];
      NoItems();
      assert [OPEN_BRACE] + [] + [CLOSE_BRACE] == [OPEN_BRACE, CLOSE_BRACE];
    }
  }

  /** At the top of a table COPY reads nothing back from the filler of an array or of a type in the schema, and an empty
      text from that of any other column. */
  lemma FillerInTable(c: FieldDef, schema: Text, ty: Type)
    requires ty.List? <==> EndsWith(c.ty, ARRAY_SUFFIX)
    requires ty.List? ==> !ty.elem.List?
    ensures ty.List? || StartsWith(c.ty, schema) ==> ReadField(Filler(c, schema, true), ty) == Some(NothingIn(ty))
    ensures !ty.List? && !StartsWith(c.ty, schema) ==> Filler(c, schema, true) == []
  {
    hide EscapeTable, Unescape, Read, ReadRow, ReadArray;
    if ty.List? {
      var none: seq<Value> := [];
      assert ElementItems(none, ty.elem) == [];
      NoItems();
      assert [OPEN_BRACE] + [] + [CLOSE_BRACE] == [OPEN_BRACE, CLOSE_BRACE];
      FieldRoundTrip(Elements(none), ty);
    }
  }

  lemma FilledFit(conv: Converter, a: Alternative, cols: seq<FieldDef>, bin: Bytes, at: seq<nat>, types: seq<Type>,
          vals: seq<Value>, columns: seq<Value>, schema: Text, c: nat)
    requires Fills(conv, a, cols, bin, at, types, vals, columns) && c < |cols|
    ensures Fits(columns[c], types[c])
    ensures c !in at ==> Filler(cols[c], schema, false) == Printed(columns[c], types[c], false)
  {
    hide Fits, Converted, Printed, Filler;
    if c in at {
      var t :| 0 <= t < |at| && at[t] == c;
      assert Fits(vals[t], types[at[t]]);
    } else {
      FillerPrinted(cols[c], schema, types[c]);
    }
  }

  /** to_sql_value of a variant. It prints exactly the value of a composite with the alternative's fields in their
      columns and nothing in the others, so that FieldRoundTrip and ReadPrinted are about it. */
  method SqlVariant(conv: Converter, schema: Text, a: Alternative, cols: seq<FieldDef>, bin: Bytes, inTable: bool,
          ghost at: seq<nat>, ghost types: seq<Type>, ghost vals: seq<Value>, ghost columns: seq<Value>)
    returns (r: Text, rest: Bytes)
    ensures Fills(conv, a, cols, bin, at, types, vals, columns) ==>
      && rest == Converted(conv, a.fields, bin).1
      && Fits(Columns(columns), Row(types)) && r == Printed(Columns(columns), Row(types), inTable)
  {
    hide Fits, Printed, Converted, ColumnItems, Join, EscapeTable, EscapeComposite, ItemOf, Filler;
    var values;
    values, rest := ToSqlValues(conv, schema, a, cols, bin, false, at);
    ghost var fills := Fills(conv, a, cols, bin, at, types, vals, columns);
    if fills {
      forall c | 0 <= c < |cols|
        ensures Fits(columns[c], types[c]) && values[c] == Printed(columns[c], types[c], false)
      {
        FilledFit(conv, a, cols, bin, at, types, vals, columns, schema, c);
        if c in at {
          var t :| 0 <= t < |at| && at[t] == c;
        }
      }
      AllFitEach(columns, types);
    }
    ghost var items := if fills then ColumnItems(columns, types) else [];
    var joined := [];
    NoItems();
    for i := 0 to |values|
      invariant fills ==> joined == Join(items[..i])
    {
      if fills {
        ColumnAt(columns, types, i);
        PrintedIsItem(columns[i], types[i]);
        JoinSnoc(items[..i], items[i]);
        assert items[..i + 1] == items[..i] + [items[i]];
      }
      joined := if i == 0 then values[i] else joined + [COMMA] + values[i];
    }
    r := Escape([OPEN] + joined + [CLOSE], inTable);
    if fills {
      assert items[..|cols|] == items;
      PrintedRow(columns, types, inTable);
    }
  }

  lemma PrintedRow(columns: seq<Value>, types: seq<Type>, inTable: bool)
    requires AllFit(columns, types) && types != []
    ensures Fits(Columns(columns), Row(types))
    ensures Printed(Columns(columns), Row(types), inTable) ==
      var text := [OPEN] + Join(ColumnItems(columns, types)) + [CLOSE];
      if inTable then EscapeTable(text) else EscapeComposite(text)
  {
    hide EscapeTable, EscapeComposite, Join, ColumnItems;
  }

  /** The fields' values in their columns. */
  function Filled(at: seq<nat>, types: seq<Type>, vals: seq<Value>, n: nat): (r: seq<Value>)
    requires |vals| == |at| && n <= |at|
    ensures |r| == |types|
  {
    if n == 0 then seq(|types|, c requires 0 <= c < |types| => NothingIn(types[c]))
    else
      var r := Filled(at, types, vals, n - 1);
      if at[n - 1] < |types| then r[at[n - 1] := vals[n - 1]] else r
  }

  lemma {:induction false} FilledAt(at: seq<nat>, types: seq<Type>, vals: seq<Value>, n: nat)
    requires |vals| == |at| && n <= |at| && Increasing(at) && forall t :: 0 <= t < |at| ==> at[t] < |types|
    ensures var r := Filled(at, types, vals, n);
      && (forall t :: 0 <= t < n ==> r[at[t]] == vals[t])
      && forall c :: 0 <= c < |types| && c !in at[..n] ==> r[c] == NothingIn(types[c])
  {
    if n > 0 {
      FilledAt(at, types, vals, n - 1);
      assert at[..n] == at[..n - 1] + [at[n - 1]];
    }
  }

  /** Under the merged columns of a well-formed variant every alternative has its columns, and if its fields have values
      of their columns' types, a reader makes of the printed text exactly these values in their columns, and nothing in
      the others. */
  lemma VariantRoundTrip(conv: Converter, alts: seq<Alternative>, b: nat, bin: Bytes, types: seq<Type>,
          vals: seq<Value>)
    requires WellFormed(alts) && b < |alts| && ColumnTypes(Union(alts), types) && |vals| == |alts[b].fields|
    requires forall at :: IsPlaced(Union(alts), alts[b], at) ==> ArePrinted(conv, alts[b], bin, at, types, vals)
    ensures exists at :: IsPlaced(Union(alts), alts[b], at) && var columns := Filled(at, types, vals, |vals|);
      && Fills(conv, alts[b], Union(alts), bin, at, types, vals, columns) && Fits(Columns(columns), Row(types))
      && ReadField(Printed(Columns(columns), Row(types), true), Row(types)) == Some(Columns(columns))
  {
    hide Union, WellFormed, Fits, Printed, Converted, ReadField, AllFit, Filled;
    var cols := Union(alts);
    AlternativesArePlaced(alts, b);
    var at :| IsPlaced(cols, alts[b], at);
    assert ArePrinted(conv, alts[b], bin, at, types, vals);
    var columns := Filled(at, types, vals, |vals|);
    FilledAt(at, types, vals, |at|);
    assert at[..|at|] == at;
    assert Fills(conv, alts[b], cols, bin, at, types, vals, columns);
    forall c | 0 <= c < |cols| ensures Fits(columns[c], types[c]) {
      FilledFit(conv, alts[b], cols, bin, at, types, vals, columns, [], c);
    }
    AllFitEach(columns, types);
    PrintedRow(columns, types, true);
    FieldRoundTrip(Columns(columns), Row(types));
  }
}
