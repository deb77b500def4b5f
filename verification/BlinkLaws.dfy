/** Laws of the blinking-character list: the linked pool behaves as a plain list of nodes. */
module BlinkLaws {
  import opened BlinkSpec

  // -------------------------------------------------------------- the pool and its list

  /** A slot is listed exactly when it has a location. */
  lemma ListedIffLocated(s: State, i: nat)
    requires Valid(s) && i < POOL_SIZE
    ensures i in s.order <==> s.pool[i].location != 0
  {
    assert FreeOk(s, i);
    if i in s.order {
      var k: nat :| k < |s.order| && s.order[k] == i;
      assert NodeOk(s, k);
    }
  }

  lemma {:induction false} DistinctBelow(order: seq<nat>, n: nat)
    requires Distinct(order) && forall k :: 0 <= k < |order| ==> order[k] < n
    ensures |order| <= n
    ensures |order| == n ==> forall i: nat :: i < n ==> i in order
    decreases n
  {
    assert order != [] ==> order[0] < n;
    if n > 0 {
      if n - 1 in order {
        var k :| 0 <= k < |order| && order[k] == n - 1;
        var rest := order[..k] + order[k + 1..];
        assert forall j :: 0 <= j < |rest| ==> rest[j] == order[if j < k then j else j + 1];
        DistinctBelow(rest, n - 1);
        assert forall i: nat :: i in rest ==> i in order;
      } else {
        assert forall j :: 0 <= j < |order| ==> order[j] in order;
        DistinctBelow(order, n - 1);
      }
    }
  }

  lemma {:induction false} AllListed(order: seq<nat>, n: nat)
    requires Distinct(order) && (forall i: nat :: i < n ==> i in order)
    ensures |order| >= n
    decreases n
  {
    if n > 0 {
      assert n - 1 in order;
      var k :| 0 <= k < |order| && order[k] == n - 1;
      var rest := order[..k] + order[k + 1..];
      assert forall j :: 0 <= j < |rest| ==> rest[j] == order[if j < k then j else j + 1];
      forall i: nat | i < n - 1
        ensures i in rest
      {
        StillListed(order, k, i);
      }
      AllListed(rest, n - 1);
    }
  }

  /** No walk along the list takes more than 2000 steps, and the allocator fails exactly when the
      list has that many nodes. */
  lemma PoolFullIffListLong(s: State)
    requires Valid(s)
    ensures |s.order| <= 2000
    ensures FreeFrom(s.pool, 0) == POOL_SIZE <==> |s.order| == 2000
  {
    forall k: nat | k < |s.order|
      ensures s.order[k] < POOL_SIZE
    {
      assert NodeOk(s, k);
    }
    forall i: nat | i < POOL_SIZE
      ensures i in s.order <==> s.pool[i].location != 0
    {
      ListedIffLocated(s, i);
    }
    DistinctBelow(s.order, POOL_SIZE);
    if FreeFrom(s.pool, 0) == POOL_SIZE {
      AllListed(s.order, POOL_SIZE);
    }
  }

  /** Adding a node keeps pool and list in agreement if and only if its location is not 0. */
  lemma AddNeedsLocation(s: State, b: Slot)
    requires Valid(s) && AddSucceeds(s, b)
    ensures Valid(AddRaw(s, b)) <==> b.location != 0
  {
    if b.location != 0 {
      AddRawValid(s, b);
    } else {
      assert !NodeOk(AddRaw(s, b), 0);
    }
  }

  /** After a node at location 0 the next one added takes the same slot and points to itself. */
  lemma LocationZeroMakesACycle(s: State, zero: Slot, b: Slot)
    requires Valid(s) && AddSucceeds(s, zero) && zero.location == 0
    ensures var f := FreeFrom(s.pool, 0);
            AddRaw(AddRaw(s, zero), b).pool[f].next == f + 1 && AddRaw(AddRaw(s, zero), b).order[0] == f
  {
    var f := FreeFrom(s.pool, 0);
    var s1 := AddRaw(s, zero);
    FirstFreeIs(s1.pool, 0, f);
  }

  lemma {:induction false} FirstFreeIs(pool: seq<Slot>, i: nat, f: nat)
    requires i <= f < |pool| && pool[f].location == 0 && forall j :: i <= j < f ==> pool[j].location != 0
    ensures FreeFrom(pool, i) == f
    decreases f - i
  {
    if i < f {
      FirstFreeIs(pool, i + 1, f);
    }
  }

  // ------------------------------------------------------------------ the plain list of nodes

  function FindNode(ns: seq<Slot>, loc: int, k: nat): (r: nat)
    requires k <= |ns|
    ensures k <= r <= |ns| && (r < |ns| ==> ns[r].location == loc)
    ensures forall j :: k <= j < r ==> ns[j].location != loc
    decreases |ns| - k
  {
    if k == |ns| || ns[k].location == loc then k else FindNode(ns, loc, k + 1)
  }

  datatype Event = AddNode(b: Slot) | RemoveAt(loc: int) | SyncAt(first: int, second: int) | TickAll

  predicate Proper(e: Event) {
    e.AddNode? ==> e.b.location != 0
  }

  /** What each operation does to a plain list. */
  function ListStep(ns: seq<Slot>, e: Event): seq<Slot> {
    match e
    case AddNode(b) =>
      if b.location < POOL_SIZE && |ns| < POOL_SIZE then [Started(b, 0)] + ns else ns
    case RemoveAt(loc) =>
      var k := FindNode(ns, loc, 0);
      if k == |ns| then ns else ns[..k] + ns[k + 1..]
    case SyncAt(first, second) =>
      var i, j := FindNode(ns, first, 0), FindNode(ns, second, 0);
      if i == |ns| || j == |ns| then ns else ns[j := Timed(ns[j], ns[i])]
    case TickAll =>
      seq(|ns|, k requires 0 <= k < |ns| => TickSlot(ns[k]))
  }

  ghost function Step(s: State, e: Event): (r: State)
    requires Valid(s) && Proper(e)
    ensures Valid(r)
  {
    match e
    case AddNode(b) => Add(s, b)
    case RemoveAt(loc) => Remove(s, loc)
    case SyncAt(first, second) => Sync(s, first, second)
    case TickAll => Tick(s)
  }

  lemma {:induction false} FindAgrees(s: State, loc: int, k: nat)
    requires Valid(s) && k <= |s.order|
    ensures FindFrom(s, loc, k) == FindNode(Nodes(s), loc, k)
    decreases |s.order| - k
  {
    if k < |s.order| {
      FindAgrees(s, loc, k + 1);
    }
  }

  lemma AddRefines(s: State, b: Slot)
    requires Valid(s) && b.location != 0
    ensures Nodes(Add(s, b)) == ListStep(Nodes(s), AddNode(b))
  {
    PoolFullIffListLong(s);
    if AddSucceeds(s, b) {
      var r := Add(s, b);
      var f := FreeFrom(s.pool, 0);
      forall k: nat | k < |s.order|
        ensures Node(r, k + 1) == Node(s, k)
      {
        assert NodeOk(s, k);
      }
      assert Nodes(r) == [Started(b, 0)] + Nodes(s);
    }
  }

  lemma RemoveRefines(s: State, loc: int)
    requires Valid(s)
    ensures Nodes(Remove(s, loc)) == ListStep(Nodes(s), RemoveAt(loc))
  {
    FindAgrees(s, loc, 0);
    var k := FindAt(s, loc);
    if k < |s.order| {
      var r := Remove(s, loc);
      assert NodeOk(s, k) && (k > 0 ==> NodeOk(s, k - 1));
      forall j: nat | j < |r.order|
        ensures Node(r, j).(next := 0) == Node(s, if j < k then j else j + 1).(next := 0)
      {
        assert NodeOk(s, if j < k then j else j + 1);
      }
      assert Nodes(r) == Nodes(s)[..k] + Nodes(s)[k + 1..];
    }
  }

  lemma SyncRefines(s: State, first: int, second: int)
    requires Valid(s)
    ensures Nodes(Sync(s, first, second)) == ListStep(Nodes(s), SyncAt(first, second))
  {
    FindAgrees(s, first, 0);
    FindAgrees(s, second, 0);
    var i, j := FindAt(s, first), FindAt(s, second);
    if i < |s.order| && j < |s.order| {
      var r := Sync(s, first, second);
      assert NodeOk(s, i) && NodeOk(s, j);
      forall k: nat | k < |s.order|
        ensures Node(r, k) == if k == j then Timed(Node(s, j), Node(s, i)) else Node(s, k)
      {
        assert NodeOk(s, k);
      }
    }
  }

  lemma TickRefines(s: State)
    requires Valid(s)
    ensures Nodes(Tick(s)) == ListStep(Nodes(s), TickAll)
  {
    var r := Tick(s);
    forall k: nat | k < |s.order|
      ensures Node(r, k) == TickSlot(Node(s, k))
    {
      assert NodeOk(s, k);
      assert r.pool[s.order[k]] == TickOne(s, s.order[k]);
    }
  }

  /** Every operation on the linked pool is the same operation on the plain list. */
  lemma PoolRefinesList(s: State, e: Event)
    requires Valid(s) && Proper(e)
    ensures Nodes(Step(s, e)) == ListStep(Nodes(s), e)
  {
    match e
    case AddNode(b) => AddRefines(s, b);
    case RemoveAt(loc) => RemoveRefines(s, loc);
    case SyncAt(first, second) => SyncRefines(s, first, second);
    case TickAll => TickRefines(s);
  }

  ghost function Run(s: State, es: seq<Event>): (r: State)
    requires Valid(s) && forall e <- es :: Proper(e)
    ensures Valid(r)
    decreases |es|
  {
    if es == [] then s else Run(Step(s, es[0]), es[1..])
  }

  function ListRun(ns: seq<Slot>, es: seq<Event>): seq<Slot>
    decreases |es|
  {
    if es == [] then ns else ListRun(ListStep(ns, es[0]), es[1..])
  }

  /** In every run the linked pool and the plain list agree. */
  lemma {:induction false} RunRefinesList(s: State, es: seq<Event>)
    requires Valid(s) && forall e <- es :: Proper(e)
    ensures Nodes(Run(s, es)) == ListRun(Nodes(s), es)
    decreases |es|
  {
    if es != [] {
      PoolRefinesList(s, es[0]);
      RunRefinesList(Step(s, es[0]), es[1..]);
    }
  }

  /** The node just added is the one found at its location, and removing there restores list and
      pool exactly, whatever else is at that location. */
  lemma AddThenRemove(s: State, b: Slot)
    requires Valid(s) && b.location != 0 && AddSucceeds(s, b)
    ensures FindAt(Add(s, b), b.location) == 0 && Node(Add(s, b), 0) == Started(b, Ptr(s.order, 0))
    ensures Remove(Add(s, b), b.location) == s
  {
    var r := Add(s, b);
    var f := FreeFrom(s.pool, 0);
    assert NodeOk(r, 0);
    ListedIffLocated(s, f);
    assert FreeOk(s, f);
    assert FindAt(r, b.location) == 0;
    var back := Remove(r, b.location);
    assert back.order == s.order;
    assert back.pool == s.pool[f := Started(b, Ptr(s.order, 0))][f := ZERO] == s.pool;
  }

  // ------------------------------------------------------------------- synchronised blinkers

  ghost predicate SameTiming(m: Slot, n: Slot) {
    m.onLength == n.onLength && m.offLength == n.offLength && m.countdown == n.countdown && m.status == n.status
  }

  /** The event neither removes slot `i` nor copies a timing onto it. */
  ghost predicate LeavesAlone(s: State, e: Event, i: nat)
    requires Valid(s)
  {
    match e
    case AddNode(_) => true
    case RemoveAt(loc) => var k := FindAt(s, loc); k < |s.order| ==> s.order[k] != i
    case SyncAt(first, second) => var k := FindAt(s, second); k < |s.order| ==> s.order[k] != i
    case TickAll => true
  }

  ghost predicate LeavesAloneAll(s: State, es: seq<Event>, i: nat)
    requires Valid(s) && forall e <- es :: Proper(e)
    decreases |es|
  {
    es == [] || (LeavesAlone(s, es[0], i) && LeavesAloneAll(Step(s, es[0]), es[1..], i))
  }

  lemma UntouchedByRemove(s: State, loc: int, i: nat)
    requires Valid(s) && i in s.order && i < POOL_SIZE && LeavesAlone(s, RemoveAt(loc), i)
    ensures i in Remove(s, loc).order && SameTiming(Remove(s, loc).pool[i], s.pool[i])
  {
    var k := FindAt(s, loc);
    if k < |s.order| {
      StillListed(s.order, k, i);
      assert NodeOk(s, k) && (k > 0 ==> NodeOk(s, k - 1));
    }
  }

  lemma UntouchedSlot(s: State, e: Event, i: nat)
    requires Valid(s) && Proper(e) && i in s.order && LeavesAlone(s, e, i)
    ensures i < POOL_SIZE && i in Step(s, e).order
    ensures var n := if e == TickAll then TickSlot(s.pool[i]) else s.pool[i];
            SameTiming(Step(s, e).pool[i], n)
  {
    var p: nat :| p < |s.order| && s.order[p] == i;
    assert NodeOk(s, p);
    match e
    case AddNode(b) =>
    case RemoveAt(loc) => UntouchedByRemove(s, loc, i);
    case SyncAt(first, second) =>
      var j := FindAt(s, second);
      if j < |s.order| {
        assert NodeOk(s, j);
      }
    case TickAll =>
      assert Tick(s).pool[i] == TickOne(s, i);
  }

  /** Two blinkers with the same timing keep the same timing through every run that does not
      remove or re-synchronise one of them, whatever else is added, removed or synchronised. */
  lemma {:induction false} StaysInSync(s: State, es: seq<Event>, i: nat, j: nat)
    requires Valid(s) && (forall e <- es :: Proper(e)) && i in s.order && j in s.order && i < POOL_SIZE && j < POOL_SIZE
    requires SameTiming(s.pool[i], s.pool[j]) && LeavesAloneAll(s, es, i) && LeavesAloneAll(s, es, j)
    ensures i in Run(s, es).order && j in Run(s, es).order && SameTiming(Run(s, es).pool[i], Run(s, es).pool[j])
    decreases |es|
  {
    if es != [] {
      UntouchedSlot(s, es[0], i);
      UntouchedSlot(s, es[0], j);
      StaysInSync(Step(s, es[0]), es[1..], i, j);
    }
  }

  /** Synchronising puts the two blinkers in step. */
  lemma SyncSynchronises(s: State, first: int, second: int)
    requires Valid(s) && FindAt(s, first) < |s.order| && FindAt(s, second) < |s.order|
    ensures var i, j := FindAt(s, first), FindAt(s, second);
            SameTiming(Node(Sync(s, first, second), i), Node(Sync(s, first, second), j))
  {
    assert NodeOk(s, FindAt(s, first)) && NodeOk(s, FindAt(s, second));
  }
}
