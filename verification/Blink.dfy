/** The blinking-character driver on its slot array and video memory (blink.S, fish.c). */
module Blink {
  import opened Machine
  import opened BlinkSpec
  import opened BlinkLaws

  const VMEM_SIZE := 4096

  /** Writing a character cell; the attribute byte behind it stays (mp1_poke). */
  function Poke(v: seq<byte>, loc: nat, c: byte): seq<byte>
    requires |v| == VMEM_SIZE && loc < POOL_SIZE
  {
    v[2 * loc := c]
  }

  /** The character a node's tick writes, if its countdown runs out. */
  function TickChar(n: Slot): Option<byte> {
    if StillCounting(n.countdown) then None
    else if n.status % 2 == 1 then Some(n.offChar)
    else Some(n.onChar)
  }

  ghost function PaintOne(v: seq<byte>, n: Slot): (r: seq<byte>)
    requires |v| == VMEM_SIZE && n.location < POOL_SIZE
    ensures |r| == VMEM_SIZE
  {
    if TickChar(n) == None then v else Poke(v, n.location, TickChar(n).value)
  }

  /** Video memory after the nodes from the k-th on have ticked. */
  ghost function Painted(v: seq<byte>, ns: seq<Slot>, k: nat): (r: seq<byte>)
    requires OnScreen(ns) && |v| == VMEM_SIZE && k <= |ns|
    ensures |r| == VMEM_SIZE
    decreases |ns| - k
  {
    if k == |ns| then v else Painted(PaintOne(v, ns[k]), ns, k + 1)
  }

  class Blink {
    const pool: array<Slot>
    const vmem: array<byte>
    var head: nat
    ghost var order: seq<nat>

    ghost function Value(): State
      reads this, pool
    {
      State(pool[..], order)
    }

    ghost predicate Ok()
      reads this, pool
    {
      && pool.Length == POOL_SIZE && vmem.Length == VMEM_SIZE
      && Valid(Value()) && head == Ptr(order, 0)
    }

    /** main clears the pool before anything else; `vmem` is the mapped video memory. */
    constructor (vmem: array<byte>)
      requires vmem.Length == VMEM_SIZE
      ensures Ok() && this.vmem == vmem && fresh(pool) && order == []
    {
      this.vmem := vmem;
      pool := new Slot[POOL_SIZE](_ => ZERO);
      head := 0;
      order := [];
      new;
      assert forall i: nat :: i < POOL_SIZE ==> FreeOk(Value(), i);
    }

    /** The first free slot, or NULL (mp1_malloc). */
    method Malloc() returns (p: nat)
      requires pool.Length == POOL_SIZE
      ensures p == if FreeFrom(pool[..], 0) == POOL_SIZE then 0 else FreeFrom(pool[..], 0) + 1
    {
      var i := 0;
      while i < 80 * 25
        invariant 0 <= i <= POOL_SIZE && FreeFrom(pool[..], 0) == FreeFrom(pool[..], i)
      {
        if pool[i].location == 0 {
          return i + 1;
        }
        i := i + 1;
      }
      return 0;
    }

    /** The first node at a location, or NULL (mp1_find_helper). */
    method FindHelper(loc: uint16) returns (p: nat)
      requires Ok()
      ensures p == Ptr(order, FindAt(Value(), loc))
    {
      ghost var s, k := Value(), 0;
      p := head;
      while p != 0
        invariant k <= |order| && p == Ptr(order, k) && FindFrom(s, loc, 0) == FindFrom(s, loc, k)
        decreases |order| - k
      {
        assert NodeOk(s, k);
        if pool[p - 1].location == loc {
          return;
        }
        p := pool[p - 1].next;
        k := k + 1;
      }
    }

    method WriteChar(loc: nat, c: byte)
      requires vmem.Length == VMEM_SIZE && loc < POOL_SIZE
      modifies vmem
      ensures vmem[..] == Poke(old(vmem[..]), loc, c)
    {
      vmem[2 * loc] := c;
    }

    /** Link a copy of the user's structure in front of the list and draw it (mp1_ioctl_add).  Only
        location 0 breaks the list. */
    method IoctlAdd(user: Slot) returns (r: int)
      requires Ok()
      modifies this, pool, vmem
      ensures Value() == if AddSucceeds(old(Value()), user) then AddRaw(old(Value()), user) else old(Value())
      ensures Ok() <==> user.location != 0 || !AddSucceeds(old(Value()), user)
      ensures user.location != 0 ==> Value() == Add(old(Value()), user)
      ensures r == if AddSucceeds(old(Value()), user) then 0 else -1
      ensures vmem[..] == if r == 0 then Poke(old(vmem[..]), user.location, user.onChar) else old(vmem[..])
    {
      ghost var s := Value();
      if user.location >= 80 * 25 {
        return -1;
      }
      var temp := user.(status := 1);
      temp := temp.(countdown := temp.onLength);
      var p := Malloc();
      if p == 0 {
        return -1;
      }
      pool[p - 1] := temp;
      pool[p - 1] := pool[p - 1].(next := head);
      head := p;
      order := [p - 1] + order;
      assert Value() == AddRaw(s, user);
      AddNeedsLocation(s, user);
      WriteChar(pool[p - 1].location, pool[p - 1].onChar);
      return 0;
    }

    /** The node whose link points to `p`, the k-th node, or 0 when that link is the list head. */
    method FindPrevious(p: nat, ghost k: nat) returns (prev: nat)
      requires Ok() && k < |order| && p == Ptr(order, k)
      ensures prev == if k == 0 then 0 else Ptr(order, k - 1)
    {
      var link := head;
      prev := 0;
      ghost var j := 0;
      while link != p
        invariant j <= k && link == Ptr(order, j) && prev == (if j == 0 then 0 else Ptr(order, j - 1))
        decreases k - j
      {
        assert NodeOk(Value(), j);
        prev := link;
        link := pool[link - 1].next;
        j := j + 1;
      }
    }

    /** Unlink the first node at a location and zero its slot (mp1_ioctl_remove, mp1_free). */
    method IoctlRemove(arg: uint32) returns (r: int)
      requires Ok()
      modifies this, pool
      ensures var loc := arg % 0x1_0000;
              && Ok() && Value() == Remove(old(Value()), loc)
              && r == if FindAt(old(Value()), loc) < |old(order)| then 0 else -1
    {
      ghost var s := Value();
      var p := FindHelper(arg % 0x1_0000);
      if p == 0 {
        return -1;
      }
      ghost var k := FindAt(s, arg % 0x1_0000);
      var prev := FindPrevious(p, k);
      assert NodeOk(s, k) && (k > 0 ==> NodeOk(s, k - 1));
      var next := pool[p - 1].next;
      if prev == 0 {
        head := next;
      } else {
        pool[prev - 1] := pool[prev - 1].(next := next);
      }
      pool[p - 1] := ZERO;
      order := order[..k] + order[k + 1..];
      assert Value() == RemoveNth(s, k);
      RemoveNthValid(s, k);
      return 0;
    }

    /** Copy the timing of the first blinker to the second and redraw that one (mp1_ioctl_sync).
        The conditional move tests a flag that is never set, so it draws the off character. */
    method IoctlSync(arg: uint32) returns (r: int)
      requires Ok()
      modifies pool, vmem
      ensures var s := old(Value()); var first, second := arg / 0x1_0000, arg % 0x1_0000;
              && Ok() && Value() == Sync(s, first, second)
              && r == (if FindAt(s, first) < |order| && FindAt(s, second) < |order| then 0 else -1)
              && vmem[..] == if r == 0 then Redrawn(old(vmem[..]), s, FindAt(s, second)) else old(vmem[..])
    {
      ghost var s := Value();
      var from := FindHelper(arg / 0x1_0000);
      if from == 0 {
        return -1;
      }
      var to := FindHelper(arg % 0x1_0000);
      if to == 0 {
        return -1;
      }
      assert NodeOk(s, FindAt(s, arg / 0x1_0000)) && NodeOk(s, FindAt(s, arg % 0x1_0000));
      var node := pool[to - 1];
      node := node.(onLength := pool[from - 1].onLength, offLength := pool[from - 1].offLength);
      node := node.(countdown := pool[from - 1].countdown, status := pool[from - 1].status);
      pool[to - 1] := node;
      assert Value() == Sync(s, arg / 0x1_0000, arg % 0x1_0000);
      WriteChar(node.location, node.offChar);
      return 0;
    }

    /** Copy out the first node at a location (mp1_ioctl_find). */
    method IoctlFind(loc: uint16) returns (r: Option<Slot>)
      requires Ok()
      ensures var k := FindAt(Value(), loc); r == if k == |order| then None else Some(Node(Value(), k))
    {
      var p := FindHelper(loc);
      if p == 0 {
        return None;
      }
      assert NodeOk(Value(), FindAt(Value(), loc));
      return Some(pool[p - 1]);
    }

    /** One clock tick over the whole list (mp1_rtc_tasklet). */
    method Tasklet()
      requires Ok()
      modifies pool, vmem
      ensures Ok() && Value() == Tick(old(Value()))
      ensures vmem[..] == Painted(old(vmem[..]), Nodes(old(Value())), 0)
    {
      ghost var s, k := Value(), 0;
      var p := head;
      while p != 0
        invariant k <= |order| && p == Ptr(order, k) && order == s.order
        invariant |pool[..]| == POOL_SIZE && TickedUpTo(pool[..], s, k)
        invariant Painted(vmem[..], Nodes(s), k) == Painted(old(vmem[..]), Nodes(s), 0)
        decreases |order| - k
      {
        assert NodeOk(s, k) && pool[p - 1] == Node(s, k);
        assert Nodes(s)[k] == pool[p - 1].(next := 0);
        TickNode(p - 1);
        p := pool[p - 1].next;
        k := k + 1;
      }
      assert pool[..] == Tick(s).pool;
    }

    /** The loop body of the tasklet for one node. */
    method TickNode(i: nat)
      requires pool.Length == POOL_SIZE && vmem.Length == VMEM_SIZE && i < POOL_SIZE && pool[i].location < POOL_SIZE
      modifies pool, vmem
      ensures pool[..] == old(pool[..])[i := TickSlot(old(pool[i]))]
      ensures var n := old(pool[i]);
              vmem[..] == PaintOne(old(vmem[..]), n)
    {
      pool[i] := pool[i].(countdown := (pool[i].countdown + 0xFFFF) % 0x1_0000);
      if !(0 < pool[i].countdown < 0x8000) {
        if pool[i].status % 2 == 1 {
          WriteChar(pool[i].location, pool[i].offChar);
          pool[i] := pool[i].(countdown := pool[i].offLength, status := pool[i].status - 1);
        } else {
          WriteChar(pool[i].location, pool[i].onChar);
          pool[i] := pool[i].(countdown := pool[i].onLength, status := pool[i].status + 1);
        }
      }
    }
  }

  /** The off character of the k-th node in its cell. */
  ghost function Redrawn(v: seq<byte>, s: State, k: nat): seq<byte>
    requires Valid(s) && |v| == VMEM_SIZE && k < |s.order|
  {
    assert NodeOk(s, k);
    Poke(v, Node(s, k).location, Node(s, k).offChar)
  }

  /** The first `k` nodes have ticked, everything else is as it was. */
  ghost predicate TickedUpTo(pool: seq<Slot>, s: State, k: nat)
    requires Valid(s) && |pool| == POOL_SIZE && k <= |s.order|
  {
    forall i: nat :: i < POOL_SIZE ==> pool[i] == if i in s.order[..k] then TickSlot(s.pool[i]) else s.pool[i]
  }
}
