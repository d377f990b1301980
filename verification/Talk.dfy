/** The talk demo: a contract that grows a forest of messages, and a server that pages through it. */
module Talk {

  const WORD := 0x1_0000_0000_0000_0000

  /** Ids the system can still hand out end here. */
  const NO_AVAILABLE_KEY := WORD - 2

  datatype Option<T> = None | Some(value: T)

  datatype Message = Message(id: nat, replyTo: nat, user: nat, content: string)

  // ---------- the forest ----------

  /** Every message has its own non-zero id, and answers nothing or a message posted before it. */
  ghost predicate Forest(table: map<nat, Message>, rank: map<nat, nat>)
  {
    && rank.Keys == table.Keys
    && forall x :: x in table ==>
         && 0 < x < NO_AVAILABLE_KEY && table[x].id == x && rank[x] < |table|
         && (table[x].replyTo != 0 ==> table[x].replyTo in table && rank[table[x].replyTo] < rank[x])
  }

  /** How deep a message's replies can still go. */
  ghost function Room(table: map<nat, Message>, rank: map<nat, nat>, parent: nat): nat
    requires Forest(table, rank)
  {
    if parent in table then |table| - rank[parent] else |table| + 1
  }

  ghost predicate IsChild(table: map<nat, Message>, parent: nat, minId: nat, c: nat)
  {
    c in table && table[c].replyTo == parent && minId <= c
  }

  /** The child with the least id that is at least minId. */
  ghost predicate IsFirst(table: map<nat, Message>, parent: nat, minId: nat, c: nat)
  {
    IsChild(table, parent, minId, c) && forall d :: IsChild(table, parent, minId, d) ==> c <= d
  }

  ghost predicate IsLeast(s: set<nat>, m: nat)
  {
    m in s && forall x :: x in s ==> m <= x
  }

  lemma LeastExists(s: set<nat>)
    requires s != {}
    ensures exists m :: IsLeast(s, m)
  {
    var e :| e in s;
    if s == {e} {
      assert IsLeast(s, e);
    } else {
      LeastExists(s - {e});
      var m :| IsLeast(s - {e}, m);
      assert forall x :: x in s ==> x == e || x in s - {e};
      assert IsLeast(s, if e < m then e else m);
    }
  }

  ghost function FirstChild(table: map<nat, Message>, parent: nat, minId: nat): (r: Option<nat>)
    ensures r.Some? ==> IsFirst(table, parent, minId, r.value)
    ensures r.None? ==> forall c :: !IsChild(table, parent, minId, c)
  {
    var children := set c | c in table && IsChild(table, parent, minId, c);
    if children == {} then
      assert forall c :: IsChild(table, parent, minId, c) ==> c in children;
      None
    else
      LeastExists(children);
      var c :| IsLeast(children, c);
      assert forall d :: IsChild(table, parent, minId, d) ==> d in children;
      Some(c)
  }

  ghost function IdsFrom(table: map<nat, Message>, minId: nat): set<nat>
  {
    set c | c in table && minId <= c
  }

  /** The replies to parent with id at least minId, in id order, each followed by its own replies. */
  ghost function Preorder(table: map<nat, Message>, rank: map<nat, nat>, parent: nat, minId: nat): seq<nat>
    requires Forest(table, rank)
    decreases Room(table, rank, parent), |IdsFrom(table, minId)|
  {
    match FirstChild(table, parent, minId)
    case None => []
    case Some(c) =>
      assert IdsFrom(table, c + 1) < IdsFrom(table, minId) by {
        assert c in IdsFrom(table, minId) && c !in IdsFrom(table, c + 1);
      }
      Smaller(IdsFrom(table, c + 1), IdsFrom(table, minId));
      [c] + Preorder(table, rank, c, 0) + Preorder(table, rank, parent, c + 1)
  }

  lemma PreorderStep(table: map<nat, Message>, rank: map<nat, nat>, parent: nat, minId: nat)
    requires Forest(table, rank)
    ensures var first := FirstChild(table, parent, minId);
            && (first.None? ==> Preorder(table, rank, parent, minId) == [])
            && (first.Some? ==>
                  var c := first.value;
                  && IsFirst(table, parent, minId, c)
                  && Room(table, rank, c) < Room(table, rank, parent)
                  && |IdsFrom(table, c + 1)| < |IdsFrom(table, minId)|
                  && Preorder(table, rank, parent, minId) ==
                    [c] + Preorder(table, rank, c, 0) + Preorder(table, rank, parent, c + 1))
  {
    match FirstChild(table, parent, minId)
    case None =>
    case Some(c) =>
      assert IdsFrom(table, c + 1) < IdsFrom(table, minId) by {
        assert c in IdsFrom(table, minId) && c !in IdsFrom(table, c + 1);
      }
      Smaller(IdsFrom(table, c + 1), IdsFrom(table, minId));
  }

  lemma Smaller(a: set<nat>, b: set<nat>)
    requires a < b
    ensures |a| < |b|
  {
    var x :| x in b && x !in a;
    assert a <= b - {x};
    SubsetSize(a, b - {x});
  }

  lemma SubsetSize(a: set<nat>, b: set<nat>)
    requires a <= b
    ensures |a| <= |b|
  {
    if a != {} {
      var x :| x in a;
      SubsetSize(a - {x}, b - {x});
    }
  }

  // ---------- the preorder is the whole forest ----------

  /** x answers, directly or not, a reply to parent whose id is at least minId. */
  ghost predicate Under(table: map<nat, Message>, rank: map<nat, nat>, x: nat, parent: nat, minId: nat)
    requires Forest(table, rank)
    decreases if x in rank then rank[x] + 1 else 0
  {
    x in table && (IsChild(table, parent, minId, x) ||
                   (table[x].replyTo != 0 && Under(table, rank, table[x].replyTo, parent, minId)))
  }

  /** Nothing is under a message posted later. */
  lemma {:induction false} NotUnderLater(table: map<nat, Message>, rank: map<nat, nat>, x: nat, parent: nat, minId: nat)
    requires Forest(table, rank) && parent in table
    requires x in table ==> rank[x] <= rank[parent]
    ensures !Under(table, rank, x, parent, minId)
    decreases if x in rank then rank[x] + 1 else 0
  {
    if x in table && table[x].replyTo != 0 {
      NotUnderLater(table, rank, table[x].replyTo, parent, minId);
    }
  }

  /** The first child, what is under it, and what is under the later children: one of the three. */
  lemma {:induction false} UnderSplits(table: map<nat, Message>, rank: map<nat, nat>, x: nat, parent: nat,
          minId: nat, c: nat)
    requires Forest(table, rank) && IsFirst(table, parent, minId, c)
    ensures Under(table, rank, x, parent, minId) <==>
              x == c || Under(table, rank, x, c, 0) || Under(table, rank, x, parent, c + 1)
    ensures !(x == c && Under(table, rank, x, c, 0)) && !(x == c && Under(table, rank, x, parent, c + 1))
    ensures !(Under(table, rank, x, c, 0) && Under(table, rank, x, parent, c + 1))
    decreases if x in rank then rank[x] + 1 else 0
  {
    if x in table {
      var y := table[x].replyTo;
      NotUnderLater(table, rank, c, c, 0);
      if parent in table {
        NotUnderLater(table, rank, parent, c, 0);
        NotUnderLater(table, rank, parent, parent, minId);
        NotUnderLater(table, rank, parent, parent, c + 1);
      }
      if y != 0 {
        UnderSplits(table, rank, y, parent, minId, c);
      }
    }
  }

  /** Each message below parent is listed, exactly once, and nothing else is. */
  lemma {:induction false} PreorderLists(table: map<nat, Message>, rank: map<nat, nat>, parent: nat, minId: nat, x: nat)
    requires Forest(table, rank)
    ensures multiset(Preorder(table, rank, parent, minId))[x] == if Under(table, rank, x, parent, minId) then 1 else 0
    decreases Room(table, rank, parent), |IdsFrom(table, minId)|
  {
    hide *;
    PreorderStep(table, rank, parent, minId);
    match FirstChild(table, parent, minId)
    case None =>
      NothingUnder(table, rank, x, parent, minId);
    case Some(c) =>
      PreorderLists(table, rank, c, 0, x);
      PreorderLists(table, rank, parent, c + 1, x);
      CountJoin(c, Preorder(table, rank, c, 0), Preorder(table, rank, parent, c + 1), x);
      UnderSplits(table, rank, x, parent, minId, c);
  }

  lemma CountJoin(c: nat, a: seq<nat>, b: seq<nat>, x: nat)
    ensures multiset([c] + a + b)[x] == (if x == c then 1 else 0) + multiset(a)[x] + multiset(b)[x]
  {
  }

  lemma {:induction false} NothingUnder(table: map<nat, Message>, rank: map<nat, nat>, x: nat, parent: nat, minId: nat)
    requires Forest(table, rank) && forall c :: !IsChild(table, parent, minId, c)
    ensures !Under(table, rank, x, parent, minId)
    decreases if x in rank then rank[x] + 1 else 0
  {
    if x in table && table[x].replyTo != 0 {
      NothingUnder(table, rank, table[x].replyTo, parent, minId);
    }
  }

  lemma {:induction false} AllUnderRoot(table: map<nat, Message>, rank: map<nat, nat>, x: nat)
    requires Forest(table, rank)
    ensures Under(table, rank, x, 0, 0) <==> x in table
    decreases if x in rank then rank[x] + 1 else 0
  {
    if x in table && table[x].replyTo != 0 {
      AllUnderRoot(table, rank, table[x].replyTo);
    }
  }

  /** Every element answers parent or an element listed before it. */
  ghost predicate ParentsFirst(table: map<nat, Message>, s: seq<nat>, parent: nat)
  {
    forall i :: 0 <= i < |s| ==> s[i] in table && (table[s[i]].replyTo == parent || table[s[i]].replyTo in s[..i])
  }

  lemma {:induction false} PreorderParentsFirst(table: map<nat, Message>, rank: map<nat, nat>, parent: nat, minId: nat)
    requires Forest(table, rank)
    ensures ParentsFirst(table, Preorder(table, rank, parent, minId), parent)
    decreases Room(table, rank, parent), |IdsFrom(table, minId)|
  {
    hide Preorder, Room, IdsFrom, FirstChild;
    PreorderStep(table, rank, parent, minId);
    match FirstChild(table, parent, minId)
    case None =>
    case Some(c) =>
      PreorderParentsFirst(table, rank, c, 0);
      PreorderParentsFirst(table, rank, parent, c + 1);
      JoinParentsFirst(table, c, Preorder(table, rank, c, 0), Preorder(table, rank, parent, c + 1), parent);
  }

  lemma JoinParentsFirst(table: map<nat, Message>, c: nat, a: seq<nat>, b: seq<nat>, parent: nat)
    requires c in table && table[c].replyTo == parent
    requires ParentsFirst(table, a, c) && ParentsFirst(table, b, parent)
    ensures ParentsFirst(table, [c] + a + b, parent)
  {
    var s := [c] + a + b;
    forall i | 0 <= i < |s|
      ensures s[i] in table && (table[s[i]].replyTo == parent || table[s[i]].replyTo in s[..i])
    {
      if 1 <= i <= |a| {
        assert s[i] == a[i - 1] && s[..i] == [c] + a[..i - 1];
      } else if i > |a| {
        var k := i - 1 - |a|;
        assert s[i] == b[k] && s[..i] == [c] + a + b[..k];
      }
    }
  }

  /** The listing from the empty position: every message once, no message before the one it answers. */
  lemma ForestListed(table: map<nat, Message>, rank: map<nat, nat>)
    requires Forest(table, rank)
    ensures var s := Preorder(table, rank, 0, 0);
            && multiset(s) == multiset(table.Keys)
            && forall i :: 0 <= i < |s| ==>
                 s[i] in table && (table[s[i]].replyTo == 0 || table[s[i]].replyTo in s[..i])
  {
    var s := Preorder(table, rank, 0, 0);
    forall x: nat
      ensures multiset(Preorder(table, rank, 0, 0))[x] == multiset(table.Keys)[x]
    {
      PreorderLists(table, rank, 0, 0, x);
      AllUnderRoot(table, rank, x);
    }
    PreorderParentsFirst(table, rank, 0, 0);
  }

  // ---------- the contract ----------

  datatype PostError = NotAuthorized | NoSuchMessage | IdTooBig | NoKeyLeft | DuplicateId

  /** The arguments of one post, and whether its user authorized it. */
  datatype Request = Request(id: nat, replyTo: nat, user: nat, content: string, authorized: bool)

  const USER_IDS := 1_000_000_000

  /** One more than the largest key. */
  ghost predicate IsNextKey(keys: set<nat>, next: nat)
  {
    && (forall x :: x in keys ==> x < next)
    && (next == 0 || next - 1 in keys)
  }

  lemma NextKeyExists(keys: set<nat>)
    ensures exists next: nat :: IsNextKey(keys, next)
  {
    if keys == {} {
      assert IsNextKey(keys, 0);
    } else {
      var k :| k in keys;
      NextKeyExists(keys - {k});
      var n: nat :| IsNextKey(keys - {k}, n);
      assert forall x :: x in keys ==> x == k || x in keys - {k};
      assert IsNextKey(keys, if k < n then n else k + 1);
    }
  }

  ghost function NextKey(table: map<nat, Message>): (next: nat)
    ensures IsNextKey(table.Keys, next)
  {
    NextKeyExists(table.Keys);
    var next: nat :| IsNextKey(table.Keys, next);
    next
  }

  lemma NextKeyUnique(keys: set<nat>, a: nat, b: nat)
    requires IsNextKey(keys, a) && IsNextKey(keys, b)
    ensures a == b
  {
  }

  ghost function NewId(table: map<nat, Message>, id: nat): nat
  {
    if id != 0 then id else if NextKey(table) < USER_IDS then USER_IDS else NextKey(table)
  }

  /** Why a post is refused, if it is. */
  ghost function Refusal(table: map<nat, Message>, r: Request): Option<PostError>
  {
    if !r.authorized then Some(NotAuthorized)
    else if r.replyTo != 0 && r.replyTo !in table then Some(NoSuchMessage)
    else if r.id >= USER_IDS then Some(IdTooBig)
    else if r.id == 0 && NextKey(table) >= NO_AVAILABLE_KEY then Some(NoKeyLeft)
    else if NewId(table, r.id) in table then Some(DuplicateId)
    else None
  }

  ghost function Posted(table: map<nat, Message>, r: Request): map<nat, Message>
  {
    if Refusal(table, r).Some? then table
    else table[NewId(table, r.id) := Message(NewId(table, r.id), r.replyTo, r.user, r.content)]
  }

  /** The name of a refusal is its condition, given that none before it applies. */
  ghost predicate RefusedFor(table: map<nat, Message>, r: Request, e: PostError)
  {
    match e
    case NotAuthorized => !r.authorized
    case NoSuchMessage => r.authorized && r.replyTo != 0 && r.replyTo !in table
    case IdTooBig => r.authorized && (r.replyTo == 0 || r.replyTo in table) && r.id >= 1_000_000_000
    case NoKeyLeft =>
      && r.authorized && (r.replyTo == 0 || r.replyTo in table) && r.id == 0
      && exists x :: x in table && x >= NO_AVAILABLE_KEY - 1
    case DuplicateId =>
      && r.authorized && (r.replyTo == 0 || r.replyTo in table) && r.id < 1_000_000_000
      && r.id != 0 && r.id in table
  }

  /** A new message is as the request says, under the id that was asked for or else one after all others. */
  ghost predicate StoredAs(before: map<nat, Message>, after: map<nat, Message>, r: Request, id: nat)
  {
    && after.Keys == before.Keys + {id} && id !in before && (forall x :: x in before ==> after[x] == before[x])
    && after[id].id == id && after[id].replyTo == r.replyTo && after[id].user == r.user
    && after[id].content == r.content
    && if r.id != 0 then id == r.id
       else id >= 1_000_000_000 && (forall x :: x in before ==> x < id) && (id == 1_000_000_000 || id - 1 in before)
  }

  /** A post stores exactly the message asked for, or is refused for exactly one reason and changes nothing. */
  lemma PostStores(table: map<nat, Message>, r: Request)
    ensures forall e :: Refusal(table, r) == Some(e) <==> RefusedFor(table, r, e)
    ensures Refusal(table, r).Some? ==> Posted(table, r) == table
    ensures Refusal(table, r).None? ==> exists id :: StoredAs(table, Posted(table, r), r, id)
  {
    if Refusal(table, r).None? {
      assert StoredAs(table, Posted(table, r), r, NewId(table, r.id));
    }
    forall e ensures Refusal(table, r) == Some(e) <==> RefusedFor(table, r, e) {
      if e.NoKeyLeft? && NextKey(table) >= NO_AVAILABLE_KEY {
        assert NextKey(table) - 1 in table;
      }
    }
  }

  ghost function Ranked(table: map<nat, Message>, rank: map<nat, nat>, r: Request): map<nat, nat>
  {
    if Refusal(table, r).Some? then rank else rank[NewId(table, r.id) := |table|]
  }

  /** Posting keeps the forest, and only ever adds to it. */
  lemma PostKeepsForest(table: map<nat, Message>, rank: map<nat, nat>, r: Request)
    requires Forest(table, rank)
    ensures Forest(Posted(table, r), Ranked(table, rank, r))
    ensures forall x :: x in table ==> x in Posted(table, r) && Posted(table, r)[x] == table[x]
  {
    if Refusal(table, r).None? {
      AddMessage(table, rank, Message(NewId(table, r.id), r.replyTo, r.user, r.content));
    }
  }

  lemma AddMessage(table: map<nat, Message>, rank: map<nat, nat>, m: Message)
    requires Forest(table, rank) && m.id !in table && 0 < m.id < NO_AVAILABLE_KEY
    requires m.replyTo != 0 ==> m.replyTo in table
    ensures Forest(table[m.id := m], rank[m.id := |table|])
  {
    var after := table[m.id := m];
    assert after.Keys == table.Keys + {m.id};
    assert |after| == |table| + 1;
    forall x | x in after
      ensures 0 < x < NO_AVAILABLE_KEY && after[x].id == x && rank[m.id := |table|][x] < |after|
      ensures after[x].replyTo != 0 ==>
        after[x].replyTo in after && rank[m.id := |table|][after[x].replyTo] < rank[m.id := |table|][x]
    {
      if x != m.id {
        assert x in table;
      }
    }
  }

  ghost function PostAll(requests: seq<Request>): map<nat, Message>
  {
    if requests == [] then map[] else Posted(PostAll(requests[..|requests| - 1]), requests[|requests| - 1])
  }

  ghost function RankAll(requests: seq<Request>): map<nat, nat>
  {
    if requests == [] then map[]
    else Ranked(PostAll(requests[..|requests| - 1]), RankAll(requests[..|requests| - 1]), requests[|requests| - 1])
  }

  lemma {:induction false} RunIsForest(requests: seq<Request>)
    ensures Forest(PostAll(requests), RankAll(requests))
  {
    if requests != [] {
      RunIsForest(requests[..|requests| - 1]);
      PostKeepsForest(PostAll(requests[..|requests| - 1]), RankAll(requests[..|requests| - 1]),
        requests[|requests| - 1]);
    }
  }

  /** The talk contract. */
  class Contract {
    var table: map<nat, Message>
    ghost var rank: map<nat, nat>

    ghost predicate Valid()
      reads this
    {
      Forest(table, rank)
    }

    constructor ()
      ensures Valid() && table == map[]
    {
      table, rank := map[], map[];
    }

    /** multi_index::available_primary_key, before its limit check. */
    method AvailablePrimaryKey() returns (next: nat)
      ensures next == NextKey(table)
    {
      next := 0;
      var todo := table.Keys;
      while todo != {}
        invariant todo <= table.Keys
        invariant forall y :: y in table.Keys && y !in todo ==> y < next
        invariant next == 0 || next - 1 in table
        decreases todo
      {
        var x :| x in todo;
        todo := todo - {x};
        if next <= x {
          next := x + 1;
        }
      }
      NextKeyUnique(table.Keys, next, NextKey(table));
    }

    method Post(r: Request) returns (error: Option<PostError>)
      requires Valid()
      modifies this
      ensures Valid() && error == Refusal(old(table), r) && table == Posted(old(table), r)
      ensures forall e :: error == Some(e) <==> RefusedFor(old(table), r, e)
      ensures error.Some? ==> table == old(table)
      ensures error.None? ==> exists id :: StoredAs(old(table), table, r, id)
    {
      hide Forest, StoredAs, RefusedFor;
      PostKeepsForest(table, rank, r);
      PostStores(table, r);
      if !r.authorized {
        return Some(NotAuthorized);
      }
      if r.replyTo != 0 && r.replyTo !in table {
        return Some(NoSuchMessage);
      }
      if r.id >= USER_IDS {
        return Some(IdTooBig);
      }
      var id := r.id;
      if id == 0 {
        var next := AvailablePrimaryKey();
        if next >= NO_AVAILABLE_KEY {
          return Some(NoKeyLeft);
        }
        id := if next < USER_IDS then USER_IDS else next;
      }
      if id in table {
        return Some(DuplicateId);
      }
      rank := rank[id := |table|];
      table := table[id := Message(id, r.replyTo, r.user, r.content)];
      return None;
    }
  }

  // ---------- the server ----------

  /** Where to resume: the messages whose replies are being listed, and the least id to list next. */
  datatype Position = Position(parentIds: seq<nat>, id: nat)

  datatype Response = Response(messages: seq<Message>, more: Option<Position>)

  /** The next id, as a 64-bit word. */
  function NextId(id: nat): nat
  {
    (id + 1) % WORD
  }

  /** No parent is the last 64-bit number. Positions handed out by the server are like this. */
  predicate Fits(parents: seq<nat>)
  {
    forall i :: 0 <= i < |parents| ==> parents[i] < WORD - 1
  }

  function Level(parents: seq<nat>): nat
  {
    if parents == [] then 0 else parents[|parents| - 1]
  }

  /** All that is still to be listed from a position: what is left at each level, innermost first. */
  ghost function Remaining(table: map<nat, Message>, rank: map<nat, nat>, parents: seq<nat>, id: nat): seq<nat>
    requires Forest(table, rank)
    decreases |parents|
  {
    Preorder(table, rank, Level(parents), id) +
    if parents == [] then [] else Remaining(table, rank, parents[..|parents| - 1], NextId(Level(parents)))
  }

  /** Going down to the first child, or up when there is none, leaves what remains the same. */
  lemma RemainingStep(table: map<nat, Message>, rank: map<nat, nat>, parents: seq<nat>, id: nat)
    requires Forest(table, rank)
    ensures var first, rest := FirstChild(table, Level(parents), id), Remaining(table, rank, parents, id);
            if first.Some? then
              Fits(parents) ==>
                && Fits(parents + [first.value])
                && rest == [first.value] + Remaining(table, rank, parents + [first.value], 0)
            else if parents != [] then
              rest == Remaining(table, rank, parents[..|parents| - 1], NextId(Level(parents)))
            else rest == []
  {
    hide *;
    PreorderStep(table, rank, Level(parents), id);
    RemainingIs(table, rank, parents, id);
    match FirstChild(table, Level(parents), id)
    case None =>
    case Some(c) =>
      FirstFits(table, rank, parents, id, c);
      RemainingIs(table, rank, parents, c + 1);
      RemainingIs(table, rank, parents + [c], 0);
      Regroup([c], Preorder(table, rank, c, 0), Preorder(table, rank, Level(parents), c + 1),
        Above(table, rank, parents));
  }

  /** What remains at the levels above the innermost. */
  ghost function Above(table: map<nat, Message>, rank: map<nat, nat>, parents: seq<nat>): seq<nat>
    requires Forest(table, rank)
  {
    if parents == [] then [] else Remaining(table, rank, parents[..|parents| - 1], NextId(Level(parents)))
  }

  lemma RemainingIs(table: map<nat, Message>, rank: map<nat, nat>, parents: seq<nat>, id: nat)
    requires Forest(table, rank)
    ensures Remaining(table, rank, parents, id) ==
      Preorder(table, rank, Level(parents), id) + Above(table, rank, parents)
    ensures parents == [] ==> Above(table, rank, parents) == []
    ensures parents != [] ==>
      Above(table, rank, parents) == Remaining(table, rank, parents[..|parents| - 1], NextId(Level(parents)))
  {
    hide Preorder, Forest;
  }

  lemma Regroup(c: seq<nat>, a: seq<nat>, b: seq<nat>, up: seq<nat>)
    ensures (c + a + b) + up == c + (a + (b + up))
  {
  }

  lemma FirstFits(table: map<nat, Message>, rank: map<nat, nat>, parents: seq<nat>, minId: nat, c: nat)
    requires Forest(table, rank) && IsFirst(table, Level(parents), minId, c)
    ensures Fits(parents) ==> Fits(parents + [c])
    ensures NextId(c) == c + 1 && Level(parents + [c]) == c && (parents + [c])[..|parents|] == parents
  {
  }

  /** The page of n messages from a position, and where the next one starts. */
  ghost function Walk(table: map<nat, Message>, rank: map<nat, nat>, parents: seq<nat>, id: nat, n: nat): (seq<nat>,
          Option<Position>)
    requires Forest(table, rank) && Fits(parents)
    decreases |Remaining(table, rank, parents, id)|, |parents|
  {
    RemainingStep(table, rank, parents, id);
    if n == 0 then ([], Some(Position(parents, id)))
    else match FirstChild(table, Level(parents), id)
      case Some(c) =>
        var (rest, more) := Walk(table, rank, parents + [c], 0, n - 1);
        ([c] + rest, more)
      case None =>
        if parents != [] then Walk(table, rank, parents[..|parents| - 1], NextId(Level(parents)), n) else ([], None)
  }

  lemma WalkStep(table: map<nat, Message>, rank: map<nat, nat>, parents: seq<nat>, id: nat, n: nat)
    requires Forest(table, rank) && Fits(parents)
    ensures var first, walk := FirstChild(table, Level(parents), id), Walk(table, rank, parents, id, n);
            if n == 0 then walk == ([], Some(Position(parents, id)))
            else if first.Some? then
              Fits(parents + [first.value]) &&
              var (rest, more) := Walk(table, rank, parents + [first.value], 0, n - 1);
              walk == ([first.value] + rest, more)
            else if parents != [] then walk == Walk(table, rank, parents[..|parents| - 1], NextId(Level(parents)), n)
            else walk == ([], None)
  {
    hide Remaining;
    RemainingStep(table, rank, parents, id);
  }

  /** A page is the next n of what remains, and the next page starts after them. */
  lemma {:induction false} WalkTakes(table: map<nat, Message>, rank: map<nat, nat>, parents: seq<nat>, id: nat, n: nat)
    requires Forest(table, rank) && Fits(parents)
    ensures var (ids, more) := Walk(table, rank, parents, id, n);
            var rest := Remaining(table, rank, parents, id);
            match more
            case None => ids == rest && |ids| < n
            case Some(p) =>
              && Fits(p.parentIds) && n <= |rest| && ids == rest[..n]
              && Remaining(table, rank, p.parentIds, p.id) == rest[n..]
    decreases |Remaining(table, rank, parents, id)|, |parents|
  {
    hide Remaining, FirstChild;
    RemainingStep(table, rank, parents, id);
    if n > 0 {
      match FirstChild(table, Level(parents), id)
      case Some(c) =>
        WalkTakes(table, rank, parents + [c], 0, n - 1);
      case None =>
        if parents != [] {
          WalkTakes(table, rank, parents[..|parents| - 1], NextId(Level(parents)), n);
        }
    }
  }

  /** The least child, as the range query on the reply-to index finds it. Nothing is ever deleted, so the
      first row is present. */
  method GetMessage(table: map<nat, Message>, parent: nat, minId: nat) returns (msg: Option<Message>)
    requires forall x :: x in table ==> table[x].id == x
    ensures msg.Some? <==> FirstChild(table, parent, minId).Some?
    ensures msg.Some? ==> msg.value.id == FirstChild(table, parent, minId).value && msg.value == table[msg.value.id]
  {
    msg := None;
    var todo := table.Keys;
    while todo != {}
      invariant todo <= table.Keys
      invariant msg.Some? ==> IsChild(table, parent, minId, msg.value.id) && msg.value == table[msg.value.id]
      invariant msg.None? ==> forall d :: d in table.Keys - todo ==> !IsChild(table, parent, minId, d)
      invariant msg.Some? ==> forall d :: d in table.Keys - todo && IsChild(table, parent, minId, d) ==>
        msg.value.id <= d
      decreases todo
    {
      var x :| x in todo;
      todo := todo - {x};
      if table[x].replyTo == parent && minId <= x && (msg.None? || x < msg.value.id) {
        msg := Some(table[x]);
      }
    }
  }

  lemma WalkLength(table: map<nat, Message>, rank: map<nat, nat>, parents: seq<nat>, id: nat, n: nat)
    requires Forest(table, rank) && Fits(parents)
    ensures var walk := Walk(table, rank, parents, id, n); |walk.0| <= n && (walk.1.Some? <==> |walk.0| == n)
  {
    hide Walk, Remaining, Forest;
    WalkTakes(table, rank, parents, id, n);
  }

  lemma IdsMatch(table: map<nat, Message>, rank: map<nat, nat>)
    requires Forest(table, rank)
    ensures forall x :: x in table ==> table[x].id == x
  {
  }

  /** At most 20 messages go into a page. */
  function PageSize(asked: nat): nat
  {
    if asked < 20 then asked else 20
  }

  /** One request: the next messages from the given position, as many as asked for but no more than 20. There is more
      exactly if the page is full. */
  method Process(table: map<nat, Message>, ghost rank: map<nat, nat>, begin: Position, maxMessages: nat)
    returns (response: Response)
    requires Forest(table, rank) && Fits(begin.parentIds)
    ensures var (ids, more) := Walk(table, rank, begin.parentIds, begin.id, PageSize(maxMessages));
            && |response.messages| == |ids| && response.more == more
            && forall i :: 0 <= i < |ids| ==> ids[i] in table && response.messages[i] == table[ids[i]]
    ensures |response.messages| <= maxMessages && |response.messages| <= 20
    ensures response.more.Some? <==>
      |response.messages| == maxMessages || |response.messages| == 20
  {
    hide Walk, Remaining, FirstChild, Forest;
    var max := PageSize(maxMessages);
    WalkLength(table, rank, begin.parentIds, begin.id, max);
    IdsMatch(table, rank);
    var parents, id := begin.parentIds, begin.id;
    var messages: seq<Message>, more := [], None;
    ghost var ids: seq<nat>, whole := [], Walk(table, rank, parents, id, max);
    assert [] + whole.0 == whole.0;
    while true
      invariant Fits(parents) && |messages| == |ids| <= max
      invariant forall i :: 0 <= i < |ids| ==> ids[i] in table && messages[i] == table[ids[i]]
      invariant whole.0 == ids + Walk(table, rank, parents, id, max - |ids|).0
      invariant whole.1 == Walk(table, rank, parents, id, max - |ids|).1
      decreases |Remaining(table, rank, parents, id)|, |parents|
    {
      RemainingStep(table, rank, parents, id);
      WalkStep(table, rank, parents, id, max - |ids|);
      if |messages| >= max {
        more := Some(Position(parents, id));
        break;
      }
      var msg := GetMessage(table, Level(parents), id);
      if msg.Some? {
        ghost var tail := Walk(table, rank, parents + [msg.value.id], 0, max - |ids| - 1);
        assert ids + ([msg.value.id] + tail.0) == ids + [msg.value.id] + tail.0;
        messages := messages + [msg.value];
        ids := ids + [msg.value.id];
        parents := parents + [msg.value.id];
        id := 0;
      } else if parents != [] {
        id := NextId(parents[|parents| - 1]);
        parents := parents[..|parents| - 1];
      } else {
        break;
      }
    }
    response := Response(messages, more);
  }

  /** A client that follows more until there is none, asking for sizes(0), sizes(1), ... messages. */
  ghost function Crawl(table: map<nat, Message>, rank: map<nat, nat>, p: Position, sizes: nat -> nat): seq<nat>
    requires Forest(table, rank) && Fits(p.parentIds) && forall i :: sizes(i) > 0
    decreases |Remaining(table, rank, p.parentIds, p.id)|
  {
    WalkTakes(table, rank, p.parentIds, p.id, PageSize(sizes(0)));
    var (ids, more) := Walk(table, rank, p.parentIds, p.id, PageSize(sizes(0)));
    match more
    case None => ids
    case Some(q) => ids + Crawl(table, rank, q, i => sizes(i + 1))
  }

  lemma {:induction false} CrawlIsRemaining(table: map<nat, Message>, rank: map<nat, nat>, p: Position,
          sizes: nat -> nat)
    requires Forest(table, rank) && Fits(p.parentIds) && forall i :: sizes(i) > 0
    ensures Crawl(table, rank, p, sizes) == Remaining(table, rank, p.parentIds, p.id)
    decreases |Remaining(table, rank, p.parentIds, p.id)|
  {
    hide Walk, Remaining, FirstChild;
    WalkTakes(table, rank, p.parentIds, p.id, PageSize(sizes(0)));
    var (ids, more) := Walk(table, rank, p.parentIds, p.id, PageSize(sizes(0)));
    match more
    case None =>
    case Some(q) => CrawlIsRemaining(table, rank, q, i => sizes(i + 1));
  }

  /** After any run of posts, whatever the page sizes: following the pages from the start ends, and lists
      every message once, none before the one it answers. */
  lemma CrawlListsForest(requests: seq<Request>, sizes: nat -> nat)
    requires forall i :: sizes(i) > 0
    ensures Forest(PostAll(requests), RankAll(requests))
    ensures var table := PostAll(requests);
            var s := Crawl(table, RankAll(requests), Position([], 0), sizes);
            && s == Preorder(table, RankAll(requests), 0, 0)
            && multiset(s) == multiset(table.Keys)
            && forall i :: 0 <= i < |s| ==>
                 s[i] in table && (table[s[i]].replyTo == 0 || table[s[i]].replyTo in s[..i])
  {
    RunIsForest(requests);
    CrawlIsRemaining(PostAll(requests), RankAll(requests), Position([], 0), sizes);
    ForestListed(PostAll(requests), RankAll(requests));
  }
}
