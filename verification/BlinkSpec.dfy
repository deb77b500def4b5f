/** The blinking-character list as a value: a pool of slots and the order they are linked in
    (blink.S, blink.h, mp1_malloc and mp1_free in fish.c). */
module BlinkSpec {
  import opened Machine

  const POOL_SIZE := 2000     // 80 * 25

  /** A pointer is 0 for NULL and k + 1 for slot k. */
  datatype Slot = Slot(location: uint16, onChar: byte, offChar: byte, onLength: uint16, offLength: uint16,
                       countdown: uint16, status: uint16, next: nat)

  const ZERO := Slot(0, 0, 0, 0, 0, 0, 0, 0)

  datatype State = State(pool: seq<Slot>, order: seq<nat>)

  /** The pointer to the k-th node of the list. */
  ghost function Ptr(order: seq<nat>, k: nat): nat {
    if k < |order| then order[k] + 1 else 0
  }

  /** The k-th list node is a live slot and points to the next one. */
  ghost predicate NodeOk(s: State, k: nat)
    requires k < |s.order| && |s.pool| == POOL_SIZE
  {
    && s.order[k] < POOL_SIZE
    && 0 < s.pool[s.order[k]].location < POOL_SIZE && s.pool[s.order[k]].status <= 1
    && s.pool[s.order[k]].next == Ptr(s.order, k + 1)
  }

  ghost predicate Distinct(order: seq<nat>) {
    forall j, k :: 0 <= j < k < |order| ==> order[j] != order[k]
  }

  /** A slot that is not in the list is all zero. */
  ghost predicate FreeOk(s: State, i: nat)
    requires i < |s.pool|
  {
    i in s.order || s.pool[i] == ZERO
  }

  /** Pool and list agree: the list visits distinct slots, exactly those with a location, and
      every other slot is all zero. */
  ghost predicate Valid(s: State) {
    && |s.pool| == POOL_SIZE
    && Distinct(s.order)
    && (forall k: nat :: k < |s.order| ==> NodeOk(s, k))
    && (forall i: nat :: i < POOL_SIZE ==> FreeOk(s, i))
  }

  /** The first free slot, or the pool size (mp1_malloc). */
  ghost function FreeFrom(pool: seq<Slot>, i: nat): (f: nat)
    requires i <= |pool|
    ensures i <= f <= |pool| && (f < |pool| ==> pool[f].location == 0)
    ensures forall j :: i <= j < f ==> pool[j].location != 0
    decreases |pool| - i
  {
    if i == |pool| || pool[i].location == 0 then i else FreeFrom(pool, i + 1)
  }

  /** Position in the list of the first node at a location, or the list's length. */
  ghost function FindFrom(s: State, loc: int, k: nat): (r: nat)
    requires Valid(s) && k <= |s.order|
    ensures k <= r <= |s.order| && (r < |s.order| ==> Node(s, r).location == loc)
    ensures forall j: nat :: k <= j < r ==> Node(s, j).location != loc
    decreases |s.order| - k
  {
    if k == |s.order| || Node(s, k).location == loc then k else FindFrom(s, loc, k + 1)
  }

  /** The k-th node of the list. */
  ghost function Node(s: State, k: nat): (n: Slot)
    requires Valid(s) && k < |s.order|
    ensures 0 < n.location < POOL_SIZE && n.status <= 1
  {
    assert NodeOk(s, k);
    s.pool[s.order[k]]
  }

  /** The list's nodes, newest first, without their link fields. */
  ghost function Nodes(s: State): (ns: seq<Slot>)
    requires Valid(s)
    ensures |ns| == |s.order| && OnScreen(ns)
  {
    seq(|s.order|, k requires 0 <= k < |s.order| => Node(s, k).(next := 0))
  }

  ghost predicate OnScreen(ns: seq<Slot>) {
    forall k :: 0 <= k < |ns| ==> 0 < ns[k].location < POOL_SIZE
  }

  ghost function FindAt(s: State, loc: int): nat
    requires Valid(s)
  {
    FindFrom(s, loc, 0)
  }

  // ------------------------------------------------------------------------- operations

  /** The user's structure, marked on and about to count down its on-time. */
  function Started(b: Slot, next: nat): Slot {
    b.(countdown := b.onLength, status := 1, next := next)
  }

  /** Linking a new node in front, in the first free slot. */
  ghost function AddRaw(s: State, b: Slot): State
    requires |s.pool| == POOL_SIZE
  {
    var f := FreeFrom(s.pool, 0);
    if f == POOL_SIZE then s
    else State(s.pool[f := Started(b, Ptr(s.order, 0))], [f] + s.order)
  }

  ghost predicate AddSucceeds(s: State, b: Slot)
    requires |s.pool| == POOL_SIZE
  {
    b.location < POOL_SIZE && FreeFrom(s.pool, 0) < POOL_SIZE
  }

  ghost function Add(s: State, b: Slot): (r: State)
    requires Valid(s) && b.location != 0
    ensures Valid(r)
  {
    if !AddSucceeds(s, b) then s else
    var r := AddRaw(s, b);
    AddRawValid(s, b);
    r
  }

  /** Unlinking the k-th node and zeroing its slot. */
  ghost function RemoveNth(s: State, k: nat): State
    requires Valid(s) && k < |s.order|
  {
    assert NodeOk(s, k) && (k > 0 ==> NodeOk(s, k - 1));
    var unlinked :=
      if k == 0 then s.pool
      else s.pool[s.order[k - 1] := s.pool[s.order[k - 1]].(next := Ptr(s.order, k + 1))];
    State(unlinked[s.order[k] := ZERO], s.order[..k] + s.order[k + 1..])
  }

  ghost function Remove(s: State, loc: int): (r: State)
    requires Valid(s)
    ensures Valid(r)
  {
    var k := FindAt(s, loc);
    if k == |s.order| then s else
    RemoveNthValid(s, k);
    RemoveNth(s, k)
  }

  /** `to` with the timing of `from`. */
  function Timed(to: Slot, from: Slot): Slot {
    to.(onLength := from.onLength, offLength := from.offLength, countdown := from.countdown, status := from.status)
  }

  ghost function Sync(s: State, first: int, second: int): (r: State)
    requires Valid(s)
    ensures Valid(r)
  {
    var i, j := FindAt(s, first), FindAt(s, second);
    if i == |s.order| || j == |s.order| then s
    else
      assert NodeOk(s, i) && NodeOk(s, j);
      var r := s.(pool := s.pool[s.order[j] := Timed(s.pool[s.order[j]], s.pool[s.order[i]])]);
      SamePointersValid(s, r);
      r
  }

  /** The countdown is a 16-bit word compared as a signed one. */
  function Decremented(c: uint16): uint16 {
    (c + 0xFFFF) % 0x1_0000
  }

  predicate StillCounting(c: uint16) {
    0 < Decremented(c) < 0x8000
  }

  function TickSlot(n: Slot): (r: Slot)
    ensures n.status <= 1 ==> r.status <= 1
    ensures r.location == n.location && r.next == n.next
  {
    if StillCounting(n.countdown) then n.(countdown := Decremented(n.countdown))
    else if n.status % 2 == 1 then n.(countdown := n.offLength, status := n.status - 1)
    else n.(countdown := n.onLength, status := n.status + 1)
  }

  ghost function TickOne(s: State, i: nat): Slot
    requires Valid(s) && i < POOL_SIZE
  {
    if i in s.order then TickSlot(s.pool[i]) else s.pool[i]
  }

  ghost function Tick(s: State): (r: State)
    requires Valid(s)
    ensures Valid(r)
  {
    var r := State(seq(POOL_SIZE, i requires 0 <= i < POOL_SIZE => TickOne(s, i)), s.order);
    SamePointersValid(s, r);
    r
  }

  // ---------------------------------------------------------- what each operation keeps

  /** Changing only timing fields of listed slots keeps the list. */
  lemma SamePointersValid(s: State, r: State)
    requires Valid(s) && r.order == s.order && |r.pool| == POOL_SIZE
    requires forall i: nat :: i < POOL_SIZE ==>
               r.pool[i].next == s.pool[i].next && r.pool[i].location == s.pool[i].location &&
               (s.pool[i].status <= 1 ==> r.pool[i].status <= 1) && (i !in s.order ==> r.pool[i] == s.pool[i])
    ensures Valid(r)
  {
    forall k: nat | k < |r.order|
      ensures NodeOk(r, k)
    {
      assert NodeOk(s, k);
    }
    forall i: nat | i < POOL_SIZE
      ensures FreeOk(r, i)
    {
      assert FreeOk(s, i);
    }
  }

  lemma AddRawValid(s: State, b: Slot)
    requires Valid(s) && b.location != 0 && AddSucceeds(s, b)
    ensures Valid(AddRaw(s, b))
  {
    var f := FreeFrom(s.pool, 0);
    var r := AddRaw(s, b);
    forall k: nat | k < |s.order|
      ensures s.order[k] != f
    {
      assert NodeOk(s, k);
    }
    forall k: nat | k < |r.order|
      ensures NodeOk(r, k)
    {
      if k > 0 {
        assert NodeOk(s, k - 1);
      }
    }
    forall i: nat | i < POOL_SIZE
      ensures FreeOk(r, i)
    {
      assert FreeOk(s, i);
    }
  }

  lemma RemoveNthValid(s: State, k: nat)
    requires Valid(s) && k < |s.order|
    ensures Valid(RemoveNth(s, k))
  {
    var r := RemoveNth(s, k);
    assert NodeOk(s, k) && (k > 0 ==> NodeOk(s, k - 1));
    forall j: nat | j < |r.order|
      ensures NodeOk(r, j)
    {
      assert NodeOk(s, j) && NodeOk(s, j + 1);
    }
    forall i: nat | i < POOL_SIZE
      ensures FreeOk(r, i)
    {
      assert FreeOk(s, i);
      StillListed(s.order, k, i);
    }
  }

  lemma StillListed(order: seq<nat>, k: nat, i: nat)
    requires k < |order|
    ensures i in order && i != order[k] ==> i in order[..k] + order[k + 1..]
  {
    assert order == order[..k] + [order[k]] + order[k + 1..];
  }
}
