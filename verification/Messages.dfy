/** Messages from the node, and the steps they make the filler take. */
module Messages {
  import opened Bytes
  import opened Store
  import opened KeyCodec
  import opened Tables
  import opened History

  // ---------- what a block puts into the batches ----------

  const BLOCK_INFO: Name := 0x3c688801d35d0000
  const ACTION_TRACE: Name := 0x366e642800000000

  datatype TableDelta = TableDelta(name: Name, rows: seq<(bool, Bytes)>)

  /** get_blocks_result_v0, with the rows made of its parts. */
  datatype Message =
    Message(pos: Position, prev: Option<Position>, irreversible: Position, block: Option<Bytes>,
      deltas: seq<TableDelta>, traces: seq<Bytes>)

  /** The steps of the first n rows of a delta; a long one is written in parts. */
  function RowSteps(d: TableDelta, n: nat): seq<Step>
    requires n <= |d.rows|
  {
    if n == 0 then [] else
      RowSteps(d, n - 1)
        + (if |d.rows| > 10000 && (n - 1) % 10000 == 0 then [Flush] else [])
        + [Add(d.name, d.rows[n - 1].0, d.rows[n - 1].1)]
  }

  function DeltaSteps(ds: seq<TableDelta>): seq<Step>
  {
    if ds == [] then [] else DeltaSteps(ds[..|ds| - 1]) + RowSteps(ds[|ds| - 1], |ds[|ds| - 1].rows|)
  }

  function TraceSteps(traces: seq<Bytes>): seq<Step>
  {
    if traces == [] then [] else TraceSteps(traces[..|traces| - 1]) + [Add(ACTION_TRACE, true, traces[|traces| - 1])]
  }

  function BlockSteps(block: Option<Bytes>): seq<Step>
  {
    if block.Some? then [Add(BLOCK_INFO, true, block.value)] else []
  }

  function ResultOf(m: Message): BlockResult
  {
    BlockResult(m.pos, m.prev, m.irreversible, BlockSteps(m.block) + DeltaSteps(m.deltas) + TraceSteps(m.traces))
  }

  lemma {:induction false} DoAllConcat(sc: Config, s: Session, num: u32, a: seq<Step>, b: seq<Step>)
    ensures DoAll(sc, s, num, a + b) == DoAll(sc, DoAll(sc, s, num, a), num, b)
  {
    hide Do;
    if b == [] {
      assert a + b == a;
    } else {
      DoAllConcat(sc, s, num, a, b[..|b| - 1]);
      assert (a + b)[..|a + b| - 1] == a + b[..|b| - 1];
    }
  }

  lemma {:induction false} DeadDoesNothing(sc: Config, s: Session, num: u32, steps: seq<Step>)
    requires !s.alive
    ensures DoAll(sc, s, num, steps) == s
  {
    if steps != [] {
      DeadDoesNothing(sc, s, num, steps[..|steps| - 1]);
    }
  }

  lemma NextDelta(sc: Config, s: Session, num: u32, ds: seq<TableDelta>, i: nat)
    requires i < |ds|
    ensures DoAll(sc, s, num, DeltaSteps(ds[..i + 1])) ==
      DoAll(sc, DoAll(sc, s, num, DeltaSteps(ds[..i])), num, RowSteps(ds[i], |ds[i].rows|))
  {
    hide DoAll, RowSteps;
    assert ds[..i + 1][..i] == ds[..i];
    DoAllConcat(sc, s, num, DeltaSteps(ds[..i]), RowSteps(ds[i], |ds[i].rows|));
  }

  lemma {:induction false} DeadDeltas(sc: Config, s: Session, num: u32, ds: seq<TableDelta>, i: nat)
    requires i <= |ds| && !DoAll(sc, s, num, DeltaSteps(ds[..i])).alive
    ensures DoAll(sc, s, num, DeltaSteps(ds)) == DoAll(sc, s, num, DeltaSteps(ds[..i]))
    decreases |ds| - i
  {
    hide DoAll, RowSteps, DeltaSteps;
    if i < |ds| {
      NextDelta(sc, s, num, ds, i);
      DeadDoesNothing(sc, DoAll(sc, s, num, DeltaSteps(ds[..i])), num, RowSteps(ds[i], |ds[i].rows|));
      DeadDeltas(sc, s, num, ds, i + 1);
    } else {
      assert ds[..i] == ds;
    }
  }

  lemma NextTrace(sc: Config, s: Session, num: u32, traces: seq<Bytes>, i: nat)
    requires i < |traces|
    ensures DoAll(sc, s, num, TraceSteps(traces[..i + 1])) ==
      Do(sc, DoAll(sc, s, num, TraceSteps(traces[..i])), num, Add(ACTION_TRACE, true, traces[i]))
  {
    hide DoAll, Do;
    assert traces[..i + 1][..i] == traces[..i];
    DoAllConcat(sc, s, num, TraceSteps(traces[..i]), [Add(ACTION_TRACE, true, traces[i])]);
    OneStepOnly(sc, DoAll(sc, s, num, TraceSteps(traces[..i])), num, Add(ACTION_TRACE, true, traces[i]));
  }

  lemma {:induction false} DeadTraces(sc: Config, s: Session, num: u32, traces: seq<Bytes>, i: nat)
    requires i <= |traces| && !DoAll(sc, s, num, TraceSteps(traces[..i])).alive
    ensures DoAll(sc, s, num, TraceSteps(traces)) == DoAll(sc, s, num, TraceSteps(traces[..i]))
    decreases |traces| - i
  {
    hide DoAll, TraceSteps;
    if i < |traces| {
      NextTrace(sc, s, num, traces, i);
      DeadTraces(sc, s, num, traces, i + 1);
    } else {
      assert traces[..i] == traces;
    }
  }

  lemma NoRows(sc: Config, s: Session, num: u32, d: TableDelta)
    ensures DoAll(sc, s, num, RowSteps(d, 0)) == s
  {
  }

  lemma NextRow(sc: Config, s: Session, num: u32, d: TableDelta, i: nat)
    requires i < |d.rows| && DoAll(sc, s, num, RowSteps(d, i)).alive
    ensures var m := DoAll(sc, s, num, RowSteps(d, i));
      var f := if |d.rows| > 10000 && i % 10000 == 0 then History.EndWrite(m, false) else m;
      DoAll(sc, s, num, RowSteps(d, i + 1)) == Do(sc, f, num, Add(d.name, d.rows[i].0, d.rows[i].1))
  {
    hide DoAll, EndWrite;
    var m := DoAll(sc, s, num, RowSteps(d, i));
    var add := Add(d.name, d.rows[i].0, d.rows[i].1);
    var flush: seq<Step> := if |d.rows| > 10000 && i % 10000 == 0 then [Flush] else [];
    DoAllConcat(sc, s, num, RowSteps(d, i) + flush, [add]);
    DoAllConcat(sc, s, num, RowSteps(d, i), flush);
    OneStepOnly(sc, DoAll(sc, s, num, RowSteps(d, i) + flush), num, add);
    if flush == [Flush] {
      OneStepOnly(sc, m, num, Flush);
    } else {
      DoNothing(sc, m, num);
    }
  }

  lemma DoNothing(sc: Config, s: Session, num: u32)
    ensures DoAll(sc, s, num, []) == s
  {
  }

  lemma {:induction false} DeadRows(sc: Config, s: Session, num: u32, d: TableDelta, i: nat, n: nat)
    requires i <= n <= |d.rows| && !DoAll(sc, s, num, RowSteps(d, i)).alive
    ensures DoAll(sc, s, num, RowSteps(d, n)) == DoAll(sc, s, num, RowSteps(d, i))
    decreases n
  {
    hide DoAll;
    if i < n {
      DeadRows(sc, s, num, d, i, n - 1);
      var flush: seq<Step> := if |d.rows| > 10000 && (n - 1) % 10000 == 0 then [Flush] else [];
      var rest := flush + [Add(d.name, d.rows[n - 1].0, d.rows[n - 1].1)];
      assert RowSteps(d, n) == RowSteps(d, n - 1) + rest;
      DoAllConcat(sc, s, num, RowSteps(d, n - 1), rest);
      DeadDoesNothing(sc, DoAll(sc, s, num, RowSteps(d, i)), num, rest);
    }
  }

  lemma OneStepOnly(sc: Config, s: Session, num: u32, step: Step)
    ensures DoAll(sc, s, num, [step]) == Do(sc, s, num, step)
  {
    hide Do;
    assert [step][..0] == [];
    assert DoAll(sc, s, num, []) == s;
  }
}
