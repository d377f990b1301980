/** The ordered database of state_history_rocksdb.hpp: scans over keys, and batches of writes. */
module Store {
  import opened Bytes

  datatype Option<+T> = None | Some(value: T)

  type Db = map<Bytes, Bytes>

  // ---------- batches ----------

  datatype Op = Put(key: Bytes, value: Bytes) | Delete(key: Bytes)

  function ApplyOp(db: Db, op: Op): Db
  {
    match op
    case Put(k, v) => db[k := v]
    case Delete(k) => db - {k}
  }

  /** A batch takes effect as a whole, its operations in order. */
  function Apply(db: Db, batch: seq<Op>): Db
  {
    if batch == [] then db else ApplyOp(Apply(db, batch[..|batch| - 1]), batch[|batch| - 1])
  }

  lemma ApplySnoc(db: Db, batch: seq<Op>, op: Op)
    ensures Apply(db, batch + [op]) == ApplyOp(Apply(db, batch), op)
  {
    assert (batch + [op])[..|batch|] == batch;
  }

  lemma {:induction false} ApplyConcat(db: Db, a: seq<Op>, b: seq<Op>)
    ensures Apply(db, a + b) == Apply(Apply(db, a), b)
  {
    if b == [] {
      assert a + b == a;
    } else {
      ApplyConcat(db, a, b[..|b| - 1]);
      assert (a + b)[..|a + b| - 1] == a + b[..|b| - 1];
    }
  }

  // ---------- iterators ----------

  /** memcmp over the common length says k is after upper. */
  predicate Past(k: Bytes, upper: Bytes)
  {
    k != [] && upper != [] && (upper[0] < k[0] || (upper[0] == k[0] && Past(k[1..], upper[1..])))
  }

  /** Once a key is past the upper bound, so are all after it. */
  lemma {:induction false} PastStays(k: Bytes, k': Bytes, upper: Bytes)
    requires Past(k, upper) && Less(k, k')
    ensures Past(k', upper)
  {
    if k[0] == k'[0] == upper[0] {
      PastStays(k[1..], k'[1..], upper[1..]);
    }
  }

  /** For a bound no longer than the key, the key's first bytes decide. */
  lemma {:induction false} PastPrefix(k: Bytes, upper: Bytes)
    requires |upper| <= |k|
    ensures Past(k, upper) <==> Less(upper, k[..|upper|])
  {
    if upper == [] {
      assert k[..0] == [];
    } else {
      PastPrefix(k[1..], upper[1..]);
      assert k[..|upper|][1..] == k[1..][..|upper| - 1];
    }
  }

  /** The keys a scan of [lower, upper] visits; either bound may be a prefix. */
  predicate InRange(k: Bytes, lower: Bytes, upper: Bytes)
  {
    AtMost(lower, k) && !Past(k, upper)
  }

  /** r is the first of the keys at or after from. */
  ghost predicate IsSeek(keys: set<Bytes>, from: Bytes, r: Option<Bytes>)
  {
    match r
    case None => forall k :: k in keys ==> Less(k, from)
    case Some(f) => f in keys && AtMost(from, f) && forall k :: k in keys ==> Less(k, from) || AtMost(f, k)
  }

  /** Iterator::Seek. */
  method Seek(db: Db, from: Bytes) returns (r: Option<Bytes>)
    ensures IsSeek(db.Keys, from, r)
  {
    r := None;
    var todo := db.Keys;
    while todo != {}
      invariant todo <= db.Keys
      invariant r.Some? ==> r.value in db && AtMost(from, r.value)
      invariant r.None? ==> forall k :: k in db && k !in todo ==> Less(k, from)
      invariant r.Some? ==> forall k :: k in db && k !in todo ==> Less(k, from) || AtMost(r.value, k)
      decreases todo
    {
      var x :| x in todo;
      todo := todo - {x};
      LessTotal(x, from);
      if AtMost(from, x) {
        if r.None? {
          r := Some(x);
        } else if Less(x, r.value) {
          ghost var was := r.value;
          r := Some(x);
          forall k | k in db && k !in todo
            ensures Less(k, from) || AtMost(x, k)
          {
            if k != x && AtMost(was, k) {
              AtMostTransitive(x, was, k);
            }
          }
        } else {
          LessTotal(x, r.value);
        }
      }
    }
  }

  /** r is the first of the keys after k. */
  ghost predicate IsNext(keys: set<Bytes>, k: Bytes, r: Option<Bytes>)
  {
    match r
    case None => forall x :: x in keys ==> AtMost(x, k)
    case Some(f) => f in keys && Less(k, f) && forall x :: x in keys ==> AtMost(x, k) || AtMost(f, x)
  }

  /** Iterator::Next: no byte string lies between k and k followed by a zero byte. */
  method Next(db: Db, k: Bytes) returns (r: Option<Bytes>)
    ensures IsNext(db.Keys, k, r)
  {
    r := Seek(db, k + [0]);
    forall x | x in db
      ensures Less(x, k + [0]) <==> AtMost(x, k)
    {
      Successor(k, x);
    }
    if r.Some? {
      Successor(k, r.value);
      LessTotal(k, r.value);
      if Less(r.value, k + [0]) {
        NotBoth(r.value, k + [0]);
      }
    }
  }

  lemma {:induction false} Successor(k: Bytes, x: Bytes)
    ensures Less(x, k + [0]) <==> AtMost(x, k)
  {
    if x != [] && k != [] {
      Successor(k[1..], x[1..]);
      assert (k + [0])[1..] == k[1..] + [0];
      if x[0] == k[0] {
        assert x == [x[0]] + x[1..] && k == [k[0]] + k[1..];
      }
    }
  }

  ghost predicate Sorted(ks: seq<Bytes>)
  {
    forall i, j :: 0 <= i < j < |ks| ==> Less(ks[i], ks[j])
  }

  /** The iterator stands at the first of the keys still to come. */
  ghost predicate AtFirst(it: Option<Bytes>, left: set<Bytes>)
  {
    match it
    case None => left == {}
    case Some(f) => f in left && forall k :: k in left ==> AtMost(f, k)
  }

  lemma SeekAtFirst(keys: set<Bytes>, from: Bytes, it: Option<Bytes>)
    requires IsSeek(keys, from, it)
    ensures AtFirst(it, set k | k in keys && AtMost(from, k))
  {
    forall k | k in keys && AtMost(from, k)
      ensures !Less(k, from)
    {
      if Less(k, from) { NotBoth(k, from); }
    }
  }

  lemma NextAtFirst(keys: set<Bytes>, left: set<Bytes>, f: Bytes, it: Option<Bytes>)
    requires AtFirst(Some(f), left) && left <= keys && IsNext(keys, f, it)
    requires forall k :: k in keys && AtMost(f, k) ==> k in left
    ensures AtFirst(it, left - {f})
    ensures forall k :: k in left - {f} ==> Less(f, k)
    ensures it.Some? ==> forall k :: k in keys && AtMost(it.value, k) ==> k in left - {f}
  {
    forall k | k in left - {f}
      ensures it.Some? && AtMost(it.value, k)
    {
      if AtMost(k, f) { NotBoth(f, k); }
    }
    if it.Some? {
      forall k | k in keys && AtMost(it.value, k)
        ensures k in left - {f}
      {
        AtMostTransitive(f, it.value, k);
        LessIrreflexive(f);
      }
    }
  }

  /** for_each: the keys its callback is given, in order. */
  method ForEach(db: Db, lower: Bytes, upper: Bytes) returns (ks: seq<Bytes>)
    ensures Sorted(ks)
    ensures forall k :: k in ks <==> k in db && InRange(k, lower, upper)
  {
    ks := [];
    var it := Seek(db, lower);
    ghost var left := set k | k in db && AtMost(lower, k);
    SeekAtFirst(db.Keys, lower, it);
    if it.Some? {
      forall k | k in db && AtMost(it.value, k) ensures k in left { AtMostTransitive(lower, it.value, k); }
    }
    while it.Some? && !Past(it.value, upper)
      invariant Sorted(ks) && AtFirst(it, left) && left <= db.Keys
      invariant it.Some? ==> forall k :: k in db && AtMost(it.value, k) ==> k in left
      invariant forall k :: k in left ==> AtMost(lower, k)
      invariant forall k :: k in ks ==> k in db && InRange(k, lower, upper)
      invariant forall k :: k in db && AtMost(lower, k) ==> k in ks || k in left
      invariant forall i, l :: 0 <= i < |ks| && l in left ==> Less(ks[i], l)
      decreases left
    {
      var f := it.value;
      ks := ks + [f];
      it := Next(db, f);
      NextAtFirst(db.Keys, left, f, it);
      left := left - {f};
    }
    forall k | k in left
      ensures Past(k, upper)
    {
      if k != it.value { PastStays(it.value, k, upper); }
    }
  }

  // ---------- scans over prefixes ----------

  /** inc_key: the key as one big number, plus one; a carry out of the first byte is lost. */
  method IncKey(key: Bytes) returns (r: Bytes)
    ensures |r| == |key|
    ensures Number(r) == if Number(key) + 1 == Pow256(|key|) then 0 else Number(key) + 1
  {
    hide Number, Pow256;
    r := key;
    var it := |key|;
    while it > 0
      invariant 0 <= it <= |key| && |r| == |key|
      invariant r[..it] == key[..it]
      invariant forall i :: it <= i < |key| ==> key[i] == 255 && r[i] == 0
    {
      it := it - 1;
      var b: byte := if r[it] == 255 then 0 else Plus(r[it]);
      r := r[it := b];
      if b != 0 {
        IncAt(key, r, it);
        return;
      }
    }
    Overflow(key, r);
  }

  lemma {:induction false} Overflow(key: Bytes, r: Bytes)
    requires |r| == |key| && forall i :: 0 <= i < |key| ==> key[i] == 255 && r[i] == 0
    ensures Number(r) == 0 && Number(key) + 1 == Pow256(|key|)
  {
    if key != [] {
      Overflow(key[..|key| - 1], r[..|key| - 1]);
    }
  }

  lemma IncAt(key: Bytes, r: Bytes, at: nat)
    requires |r| == |key| && at < |key| && r[..at] == key[..at] && r[at] == Plus(key[at])
    requires forall i :: at < i < |key| ==> key[i] == 255 && r[i] == 0
    ensures Number(r) == if Number(key) + 1 == Pow256(|key|) then 0 else Number(key) + 1
  {
    IncStep(key, r, at);
    NumberBound(r);
    hide Number, Pow256;
  }

  function Plus(b: byte): int
  {
    b + 1
  }

  lemma {:induction false} IncStep(key: Bytes, r: Bytes, at: nat)
    requires |r| == |key| && at < |key| && r[..at] == key[..at] && r[at] == Plus(key[at])
    requires forall i :: at < i < |key| ==> key[i] == 255 && r[i] == 0
    ensures Number(r) == Number(key) + 1
  {
    var n := |key| - 1;
    if at < n {
      IncStep(key[..n], r[..n], at);
    } else {
      assert r[..n] == key[..n];
    }
  }

  /** Some byte is below 255, so that inc_key does not overflow. */
  predicate NotFull(p: Bytes)
  {
    exists i :: 0 <= i < |p| && p[i] < 255
  }

  /** Unless all bytes are 255, inc_key gives the next prefix of the same length. */
  lemma NextPrefix(p: Bytes, next: Bytes, q: Bytes)
    requires |p| == |next| == |q| && NotFull(p)
    requires Number(next) == if Number(p) + 1 == Pow256(|p|) then 0 else Number(p) + 1
    ensures Less(p, q) <==> AtMost(next, q)
    ensures Less(p, next)
  {
    RoomAbove(p);
    hide Number, Pow256, Less;
    NumberOrder(p, q);
    NumberOrder(next, q);
    NumberOrder(p, next);
    NumberInjective(next, q);
  }

  lemma {:induction false} RoomAbove(p: Bytes)
    ensures NotFull(p) <==> Number(p) + 1 < Pow256(|p|)
  {
    if p != [] {
      var n := |p| - 1;
      RoomAbove(p[..n]);
      NumberBound(p[..n]);
      if NotFull(p[..n]) {
        var i :| 0 <= i < n && p[..n][i] < 255;
        assert p[i] < 255;
      } else if NotFull(p) {
        var i :| 0 <= i < |p| && p[i] < 255;
        assert i < n ==> p[..n][i] < 255;
      }
    }
  }

  /** The visits of a prefix scan: prefixes of length n, each with the first key that has it. */
  ghost predicate Visits(db: Db, n: nat, lower: Bytes, upper: Bytes, ps: seq<Bytes>, whole: seq<Bytes>)
  {
    && Sorted(ps) && |ps| == |whole|
    && forall i :: 0 <= i < |ps| ==> VisitAt(db, n, lower, upper, ps[i], whole[i])
  }

  /** f is the first key with prefix p, and p lies in the range. */
  ghost predicate VisitAt(db: Db, n: nat, lower: Bytes, upper: Bytes, p: Bytes, f: Bytes)
  {
    && |p| == n && AtMost(lower, p) && AtMost(p, upper)
    && f in db && n <= |f| && f[..n] == p
    && forall k :: k in db && n <= |k| && k[..n] == p ==> AtMost(f, k)
  }

  /** What a prefix scan should find: each prefix in the range once, in order, with its first whole key, until limit of
      them have been visited. None when a key in the range is shorter than the prefix. */
  ghost predicate Scanned(db: Db, lower: Bytes, upper: Bytes, limit: nat, r: Option<(seq<Bytes>, seq<Bytes>)>)
  {
    var n := |upper|;
    if r.None? then exists k :: k in db && InRange(k, lower, upper) && |k| < n
    else
      var ps := r.value.0;
      && Visits(db, n, lower, upper, ps, r.value.1) && |ps| <= limit
      && forall k :: k in db && n <= |k| && AtMost(lower, k[..n]) && AtMost(k[..n], upper) ==>
           k[..n] in ps || (|ps| == limit && ps != [] && Less(ps[|ps| - 1], k[..n]))
  }

  /** What holds before the scan goes on from low. */
  ghost predicate Scanning(db: Db, lower: Bytes, upper: Bytes, low: Bytes, ps: seq<Bytes>, whole: seq<Bytes>)
  {
    && AtMost(lower, low) && Visits(db, |upper|, lower, upper, ps, whole)
    && (forall i :: 0 <= i < |ps| ==> Less(ps[i], low)) && Covered(db, |upper|, lower, ps, low)
  }

  /** for_each_subkey, until it has visited limit prefixes. None is an exception. An upper bound of bytes 255 alone, or
      of none, is the one for which the scan can start over. */
  method ForEachSubkey(db: Db, lower: Bytes, upper: Bytes, limit: nat) returns (r: Option<(seq<Bytes>, seq<Bytes>)>)
    requires 0 < limit
    ensures |lower| != |upper| ==> r.None?
    ensures |lower| == |upper| && NotFull(upper) ==> Scanned(db, lower, upper, limit, r)
    ensures r.Some? ==> |r.value.0| == |r.value.1| <= limit
  {
    hide Less, Past, AtMost, Number, Pow256, Visits, IsSeek, Covered, InRange, Scanned, Scanning, NotFull;
    StartSubkey(db, lower, upper);
    if |lower| != |upper| {
      return None;
    }
    var low := lower;
    var ps: seq<Bytes>, whole: seq<Bytes> := [], [];
    var it := Seek(db, low);
    while it.Some? && !Past(it.value, upper)
      invariant |low| == |upper| && IsSeek(db.Keys, low, it) && |ps| == |whole| < limit
      invariant NotFull(upper) ==> Scanning(db, lower, upper, low, ps, whole)
      decreases limit - |ps|
    {
      var f := it.value;
      if |f| < |low| {
        if NotFull(upper) { ShortKey(db, lower, upper, low, f, limit, ps, whole); }
        return None;
      }
      var p := f[..|low|];
      if |ps| + 1 >= limit {
        if NotFull(upper) { LimitReached(db, lower, upper, low, f, limit, ps, whole); }
        return Some((ps + [p], whole + [f]));
      }
      var next := IncKey(p);
      if NotFull(upper) { StepOver(db, lower, upper, low, f, next, ps, whole); }
      ps, whole := ps + [p], whole + [f];
      it := Seek(db, next);
      low := next;
    }
    if NotFull(upper) { AllVisited(db, lower, upper, low, it, limit, ps, whole); }
    r := Some((ps, whole));
  }

  /** Every prefix from lower on has been visited or is still ahead. */
  ghost predicate Covered(db: Db, n: nat, lower: Bytes, ps: seq<Bytes>, low: Bytes)
  {
    forall k :: k in db && n <= |k| && AtMost(lower, k[..n]) ==> k[..n] in ps || AtMost(low, k[..n])
  }

  /** Keys compare no other way than their prefixes do. */
  lemma PrefixMonotone(a: Bytes, b: Bytes, n: nat)
    requires n <= |a| && n <= |b| && AtMost(a, b)
    ensures AtMost(a[..n], b[..n])
  {
    assert a == a[..n] + a[n..] && b == b[..n] + b[n..];
    LessConcat(a[..n], a[n..], b[..n], b[n..]);
  }

  lemma Follows(low: Bytes, f: Bytes, k: Bytes, keys: set<Bytes>)
    requires IsSeek(keys, low, Some(f)) && k in keys && |low| <= |f| && |low| <= |k|
    ensures AtMost(low, k[..|low|]) ==> AtMost(f, k) && AtMost(f[..|low|], k[..|low|])
    ensures AtMost(low, f[..|low|])
  {
    LessPrefix(f, low);
    LessPrefix(k, low);
    if AtMost(low, k[..|low|]) {
      if Less(k, low) { NotBoth(k, low); }
      PrefixMonotone(f, k, |low|);
    }
  }

  /** One visit: its prefix is new and in range, and its key the first with that prefix. */
  lemma VisitOne(db: Db, lower: Bytes, upper: Bytes, low: Bytes, f: Bytes, ps: seq<Bytes>, whole: seq<Bytes>)
    requires IsSeek(db.Keys, low, Some(f)) && AtMost(lower, low) && |low| == |upper| <= |f| && !Past(f, upper)
    requires Visits(db, |upper|, lower, upper, ps, whole)
    requires forall i :: 0 <= i < |ps| ==> Less(ps[i], low)
    ensures Visits(db, |upper|, lower, upper, ps + [f[..|upper|]], whole + [f])
  {
    hide Less, Past, AtMost, VisitAt, IsSeek;
    var n := |upper|;
    var p := f[..n];
    InBounds(lower, upper, low, f, db.Keys);
    forall i | 0 <= i < |ps| ensures Less(ps[i], p) {
      OrderSteps(ps[i], low, p);
    }
    FirstWithPrefix(db, lower, upper, low, f);
    var ps', whole' := ps + [p], whole + [f];
    forall i | 0 <= i < |ps'|
      ensures VisitAt(db, n, lower, upper, ps'[i], whole'[i])
    {
      if i < |ps| {
        assert VisitAt(db, n, lower, upper, ps[i], whole[i]);
      }
    }
  }

  lemma FirstWithPrefix(db: Db, lower: Bytes, upper: Bytes, low: Bytes, f: Bytes)
    requires IsSeek(db.Keys, low, Some(f)) && AtMost(lower, low) && |low| == |upper| <= |f| && !Past(f, upper)
    ensures VisitAt(db, |upper|, lower, upper, f[..|upper|], f)
  {
    hide Less, Past, AtMost;
    InBounds(lower, upper, low, f, db.Keys);
    forall k | k in db && |upper| <= |k| && k[..|upper|] == f[..|upper|] ensures AtMost(f, k) {
      Follows(low, f, k, db.Keys);
    }
  }

  lemma OrderSteps(a: Bytes, b: Bytes, c: Bytes)
    requires Less(a, b) && AtMost(b, c)
    ensures Less(a, c)
  {
    AtMostTransitive(a, b, c);
  }

  lemma InBounds(lower: Bytes, upper: Bytes, low: Bytes, f: Bytes, keys: set<Bytes>)
    requires IsSeek(keys, low, Some(f)) && AtMost(lower, low) && |low| == |upper| <= |f| && !Past(f, upper)
    ensures AtMost(low, f[..|upper|]) && AtMost(lower, f[..|upper|]) && AtMost(f[..|upper|], upper)
    ensures NotFull(upper) ==> NotFull(f[..|upper|])
  {
    var p := f[..|upper|];
    LessPrefix(f, low);
    AtMostTransitive(lower, low, p);
    PastPrefix(f, upper);
    LessTotal(upper, p);
    RoomAbove(upper);
    RoomAbove(p);
    NumberOrder(p, upper);
  }

  /** After a visit the scan goes on from the next prefix. */
  lemma StepOver(db: Db, lower: Bytes, upper: Bytes, low: Bytes, f: Bytes, next: Bytes, ps: seq<Bytes>,
          whole: seq<Bytes>)
    requires IsSeek(db.Keys, low, Some(f)) && |next| == |low| == |upper| <= |f| && !Past(f, upper) && NotFull(upper)
    requires Number(next) == if Number(f[..|low|]) + 1 == Pow256(|low|) then 0 else Number(f[..|low|]) + 1
    requires Scanning(db, lower, upper, low, ps, whole)
    ensures Scanning(db, lower, upper, next, ps + [f[..|low|]], whole + [f])
  {
    hide Number, Pow256, Less, AtMost, Visits, Past, NotFull, Covered, IsSeek;
    var p := f[..|low|];
    InBounds(lower, upper, low, f, db.Keys);
    VisitOne(db, lower, upper, low, f, ps, whole);
    NextPrefix(p, next, p);
    CoveredOver(db, lower, low, f, next, ps);
    AtMostSplit(p, next);
    Chained(lower, low, next, p);
    forall i | 0 <= i < |ps| ensures Less(ps[i], next) {
      OrderSteps(ps[i], low, next);
    }
  }

  lemma CoveredOver(db: Db, lower: Bytes, low: Bytes, f: Bytes, next: Bytes, ps: seq<Bytes>)
    requires IsSeek(db.Keys, low, Some(f)) && |next| == |low| <= |f| && NotFull(f[..|low|])
    requires Number(next) == if Number(f[..|low|]) + 1 == Pow256(|low|) then 0 else Number(f[..|low|]) + 1
    requires Covered(db, |low|, lower, ps, low)
    ensures Covered(db, |low|, lower, ps + [f[..|low|]], next)
  {
    hide Number, Pow256, Less, AtMost, NotFull, IsSeek;
    var n, p := |low|, f[..|low|];
    forall k | k in db && n <= |k| && AtMost(lower, k[..n])
      ensures k[..n] in ps + [p] || AtMost(next, k[..n])
    {
      if k[..n] !in ps {
        Follows(low, f, k, db.Keys);
        NextPrefix(p, next, k[..n]);
        AtMostSplit(p, k[..n]);
        assert p in ps + [p];
      }
    }
  }

  lemma AtMostSplit(a: Bytes, b: Bytes)
    ensures AtMost(a, b) <==> a == b || Less(a, b)
  {
  }

  lemma Chained(lower: Bytes, low: Bytes, next: Bytes, p: Bytes)
    requires AtMost(lower, low) && AtMost(low, p) && AtMost(p, next)
    ensures AtMost(low, next) && AtMost(lower, next)
  {
    AtMostTransitive(low, p, next);
    AtMostTransitive(lower, low, next);
  }

  lemma StartSubkey(db: Db, lower: Bytes, upper: Bytes)
    ensures |lower| == |upper| ==> Scanning(db, lower, upper, lower, [], [])
  {
  }

  lemma ShortKey(db: Db, lower: Bytes, upper: Bytes, low: Bytes, f: Bytes, limit: nat, ps: seq<Bytes>,
          whole: seq<Bytes>)
    requires IsSeek(db.Keys, low, Some(f)) && Scanning(db, lower, upper, low, ps, whole) && !Past(f, upper)
    requires |f| < |low| == |upper|
    ensures Scanned(db, lower, upper, limit, None)
  {
    AtMostTransitive(lower, low, f);
    assert f in db && InRange(f, lower, upper);
  }

  lemma LimitReached(db: Db, lower: Bytes, upper: Bytes, low: Bytes, f: Bytes, limit: nat, ps: seq<Bytes>,
          whole: seq<Bytes>)
    requires IsSeek(db.Keys, low, Some(f)) && Scanning(db, lower, upper, low, ps, whole) && !Past(f, upper)
    requires |low| == |upper| <= |f| && |ps| + 1 == limit
    ensures Scanned(db, lower, upper, limit, Some((ps + [f[..|low|]], whole + [f])))
  {
    hide Less, AtMost, Visits, Past, IsSeek;
    VisitOne(db, lower, upper, low, f, ps, whole);
    VisitCount(db, lower, upper, ps, whole);
    var n, all := |low|, ps + [f[..|low|]];
    assert all[|all| - 1] == f[..n];
    forall k | k in db && n <= |k| && AtMost(lower, k[..n])
      ensures k[..n] in all || Less(f[..n], k[..n])
    {
      Follows(low, f, k, db.Keys);
      AtMostSplit(f[..n], k[..n]);
    }
  }

  lemma VisitCount(db: Db, lower: Bytes, upper: Bytes, ps: seq<Bytes>, whole: seq<Bytes>)
    requires Visits(db, |upper|, lower, upper, ps, whole)
    ensures |ps| == |whole|
  {
  }

  lemma AllVisited(db: Db, lower: Bytes, upper: Bytes, low: Bytes, it: Option<Bytes>, limit: nat, ps: seq<Bytes>,
          whole: seq<Bytes>)
    requires IsSeek(db.Keys, low, it) && |upper| == |low| && (it.Some? ==> Past(it.value, upper))
    requires Scanning(db, lower, upper, low, ps, whole) && |ps| <= limit
    ensures Scanned(db, lower, upper, limit, Some((ps, whole)))
  {
    hide Less, AtMost, Visits, Past, IsSeek;
    forall k | k in db && |low| <= |k| && AtMost(lower, k[..|low|]) && AtMost(k[..|low|], upper)
      ensures k[..|low|] in ps
    {
      if k[..|low|] !in ps { Stopped(db.Keys, low, it, upper, k); }
    }
  }

  lemma Stopped(keys: set<Bytes>, low: Bytes, it: Option<Bytes>, upper: Bytes, k: Bytes)
    requires IsSeek(keys, low, it) && k in keys && |upper| == |low| <= |k|
    requires it.Some? ==> Past(it.value, upper)
    requires AtMost(low, k[..|low|])
    ensures !AtMost(k[..|upper|], upper)
  {
    LessPrefix(k, low);
    if Less(k, low) { NotBoth(k, low); }
    if k != it.value { PastStays(it.value, k, upper); }
    PastPrefix(k, upper);
    NotBoth(upper, k[..|upper|]);
  }
}
