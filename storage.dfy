/** Run-queue storage of the FIFO scheduler (src/storage.c): a growable stack
    of handles, a FIFO queue built from a push stack and a pop stack, and a
    slot store of function objects whose freed slots form an intrusive
    free-list threaded through their `this_fn` field. */
module Storage {
  import opened Wrappers

  /** `s` read back to front. */
  function Reverse<T>(s: seq<T>): (r: seq<T>)
    ensures |r| == |s|
    ensures forall k :: 0 <= k < |s| ==> r[k] == s[|s| - 1 - k]
  {
    if s == [] then [] else [s[|s| - 1]] + Reverse(s[..|s| - 1])
  }

  lemma {:induction false} ReverseSnoc<T>(s: seq<T>, x: T)
    ensures Reverse(s + [x]) == [x] + Reverse(s)
  {
    assert (s + [x])[..|s|] == s;
  }

  /** Growth rule shared by every realloc'd buffer of the runtime. */
  function Grown(cap: int): int { cap * 2 + 10 }

  // ---------------------------------------------------------------------
  // Stack
  // ---------------------------------------------------------------------

  /** The guard `pop_stack` checks before it decrements `len`, as written:
      it admits `len == 0`, after which `elems[len - 1]` is read. The
      result is the slot the source reads, or None when that slot lies
      outside the stack. */
  function PopStackAsWritten(elems: seq<Handle>, len: int): (r: Option<Handle>)
    requires len >= 0
    ensures r.Some? <==> 0 < len <= |elems|
  {
    if 0 <= len - 1 < |elems| then Some(elems[len - 1]) else None
  }

  /** The check lets the empty stack through and the read then misses. */
  lemma PopStackAsWrittenAdmitsEmpty(elems: seq<Handle>)
    ensures PopStackAsWritten(elems, 0) == None
  {
  }

  class Stack {
    /** The allocated buffer; its length is always `cap`. */
    var elems: seq<Handle>
    var len: int
    var cap: int

    ghost predicate Valid()
      reads this
    {
      0 <= len <= cap && |elems| == cap
    }

    /** The handles on the stack, bottom first. */
    function Contents(): seq<Handle>
      reads this
      requires Valid()
    {
      elems[..len]
    }

    /** A zero-initialised stack `{NULL, 0, 0}`. */
    constructor ()
      ensures Valid() && len == 0 && cap == 0 && Contents() == []
    {
      elems, len, cap := [], 0, 0;
    }

    /** push_stack: grows the buffer to `cap*2+10` when full, then stores
        `h` at the old `len`. */
    method Push(h: Handle)
      requires Valid()
      modifies this
      ensures Valid()
      ensures Contents() == old(Contents()) + [h]
      ensures cap == if old(len) >= old(cap) then Grown(old(cap)) else old(cap)
    {
      if len >= cap {
        var newCap := Grown(cap);
        // realloc: the new tail of the buffer holds no handle yet
        elems := elems + seq(newCap - cap, _ => 0);
        cap := newCap;
      }
      elems := elems[len := h];
      len := len + 1;
    }

    /** pop_stack with the guard corrected to `len > 0`: returns the last
        pushed handle. */
    method Pop() returns (h: Handle)
      requires Valid() && len > 0
      modifies this
      ensures Valid() && cap == old(cap) && elems == old(elems)
      ensures h == old(Contents())[old(len) - 1]
      ensures Contents() == old(Contents())[..old(len) - 1]
    {
      len := len - 1;
      h := elems[len];
    }

    /** peek_stack: the top of the stack, nothing changes. The source only
        asserts `len >= 0`, which lets an empty stack read index -1 (as in
        pop_stack, see PopStackAsWrittenAdmitsEmpty); the model asks for a
        non-empty stack. Its one caller, peek_queue, only peeks a stack it
        knows to be non-empty, so no call of the source is excluded. */
    method Peek() returns (h: Handle)
      requires Valid() && len > 0
      ensures h == Contents()[len - 1]
    {
      h := elems[len - 1];
    }
  }

  // ---------------------------------------------------------------------
  // Queue of two stacks
  // ---------------------------------------------------------------------

  class Queue {
    const push: Stack
    const pop: Stack

    ghost predicate Valid()
      reads this, push, pop
    {
      push != pop && push.Valid() && pop.Valid()
    }

    /** Queue order, front first: the pop stack read from its top, then the
        push stack from its bottom. */
    ghost function Contents(): seq<Handle>
      reads this, push, pop
      requires Valid()
    {
      Reverse(pop.Contents()) + push.Contents()
    }

    constructor ()
      ensures Valid() && fresh(push) && fresh(pop) && Contents() == []
    {
      push := new Stack();
      pop := new Stack();
    }

    /** enqueue: pushes onto the push stack. */
    method Enqueue(h: Handle)
      requires Valid()
      modifies push
      ensures Valid()
      ensures Contents() == old(Contents()) + [h]
    {
      push.Push(h);
    }

    /** The transfer loop of dequeue: moves every handle of the push stack
        onto the empty pop stack, one pop_stack/push_stack pair at a time. */
    method Transfer()
      requires Valid() && pop.len == 0
      modifies push, pop
      ensures Valid() && push.len == 0
      ensures pop.Contents() == Reverse(old(push.Contents()))
    {
      var n := push.len;
      for i := 0 to n
        invariant Valid()
        invariant push.len == n - i
        invariant push.Contents() + Reverse(pop.Contents()) == old(push.Contents())
      {
        ghost var was, before := pop.Contents(), push.Contents();
        var x := push.Pop();
        assert push.Contents() + [x] == before;
        pop.Push(x);
        ReverseSnoc(was, x);
        assert push.Contents() + Reverse(pop.Contents()) == (push.Contents() + [x]) + Reverse(was);
      }
    }

    /** dequeue: when the pop stack is empty, moves every handle of the push
        stack onto it (reversing them), then pops. */
    method Dequeue() returns (h: Handle)
      requires Valid() && Contents() != []
      modifies push, pop
      ensures Valid()
      ensures h == old(Contents())[0]
      ensures Contents() == old(Contents())[1..]
    {
      if pop.len == 0 {
        Transfer();
        assert Contents() == old(Contents());
      }
      ghost var p, r := pop.Contents(), push.Contents();
      ghost var rest := Reverse(p[..|p| - 1]) + r;
      assert old(Contents()) == Reverse(p) + r == [p[|p| - 1]] + rest;
      h := pop.Pop();
      assert pop.Contents() == p[..|p| - 1] && push.Contents() == r;
    }

    /** peek_queue: the handle the next dequeue would return. With an empty
        pop stack the source asserts that the push stack is not empty and
        reads its bottom element. */
    method Peek() returns (h: Handle)
      requires Valid() && Contents() != []
      ensures h == Contents()[0]
    {
      if pop.len != 0 {
        h := pop.Peek();
      } else {
        assert push.len > 0;
        h := push.elems[0];
      }
    }
  }

  // ---------------------------------------------------------------------
  // Function store with an intrusive free-list
  // ---------------------------------------------------------------------

  /** State values of a function object; the slot store distinguishes only
      DEAD from the others. */
  datatype FnState = Init | Running | Ready | Dead

  /** A function object as the store sees it: its own handle (for a dead
      slot: the next free index), its state, its stack base and saved stack
      top. */
  datatype FunctionObject = FunctionObject(thisFn: Handle, state: FnState, stack: int, stackTop: int)

  /** The index stored in free-list entry `k`: the next entry, or 0 at the
      end of the list. */
  function Link(list: seq<Handle>, k: int): Handle
    requires 0 <= k < |list|
  {
    if k + 1 < |list| then list[k + 1] else 0
  }

  /** Entry `k` of the free-list is a DEAD slot among the first `count`
      whose `this_fn` holds the next entry. */
  ghost predicate ChainEntry(elems: seq<FunctionObject>, count: int, list: seq<Handle>, k: int)
    requires 0 <= k < |list|
  {
    && 1 <= list[k] <= count <= |elems|
    && elems[list[k] - 1].state == Dead
    && elems[list[k] - 1].thisFn == Link(list, k)
  }

  /** Every entry of `list` is a chain entry. */
  ghost predicate FreeChain(elems: seq<FunctionObject>, count: int, list: seq<Handle>)
  {
    forall k :: 0 <= k < |list| ==> ChainEntry(elems, count, list, k)
  }

  lemma ChainAt(elems: seq<FunctionObject>, count: int, list: seq<Handle>, k: int)
    requires FreeChain(elems, count, list) && 0 <= k < |list|
    ensures 1 <= list[k] <= count <= |elems| && elems[list[k] - 1].state == Dead
    ensures elems[list[k] - 1].thisFn == Link(list, k)
  {
    assert ChainEntry(elems, count, list, k);
  }

  /** A slot that is not DEAD records its own handle. */
  ghost predicate SelfLinked(elems: seq<FunctionObject>, count: int)
  {
    forall i :: 0 <= i < count <= |elems| && elems[i].state != Dead ==> elems[i].thisFn == i + 1
  }

  lemma DistinctCons(h: Handle, list: seq<Handle>)
    requires Distinct(list) && h !in list
    ensures Distinct([h] + list)
  {
    var list' := [h] + list;
    forall j, k | 0 <= j < k < |list'|
      ensures list'[j] != list'[k]
    {
      assert list'[k] == list[k - 1];
      if j > 0 {
        assert list'[j] == list[j - 1];
      }
    }
  }

  lemma DistinctTail(list: seq<Handle>)
    requires Distinct(list) && list != []
    ensures Distinct(list[1..])
  {
    forall j, k | 0 <= j < k < |list| - 1
      ensures list[1..][j] != list[1..][k]
    {
      assert list[1..][j] == list[j + 1] && list[1..][k] == list[k + 1];
    }
  }

  /** The store invariant on the store's fields: `elems` is the buffer of
      length `cap`, the first `count` slots are in use, the free-list runs
      through DEAD slots from `nextFree`, and live slots record their own
      handle. */
  ghost predicate StoreOk(elems: seq<FunctionObject>, count: int, cap: int,
                          nextFree: Handle, freeList: seq<Handle>)
  {
    && 0 <= count <= cap && |elems| == cap
    && nextFree == (if freeList == [] then 0 else freeList[0])
    && (nextFree != 0 ==> 1 <= nextFree <= count && elems[nextFree - 1].state == Dead)
    && FreeChain(elems, count, freeList)
    && Distinct(freeList)
    && SelfLinked(elems, count)
  }

  /** `next_free == 0` marks exactly the empty free-list. */
  lemma EmptyFreeList(elems: seq<FunctionObject>, count: int, cap: int,
                      nextFree: Handle, freeList: seq<Handle>)
    requires StoreOk(elems, count, cap, nextFree, freeList)
    ensures nextFree == 0 <==> freeList == []
  {
    if freeList != [] {
      ChainAt(elems, count, freeList, 0);
    }
  }

  /** Appending at `count` (after growing the buffer if need be) keeps the
      invariant of a store whose free-list is empty. */
  lemma AppendKeepsStore(elems: seq<FunctionObject>, count: int, cap: int,
                         elems': seq<FunctionObject>, cap': int, g: FunctionObject)
    requires StoreOk(elems, count, cap, 0, [])
    requires count < cap' && |elems'| == cap' && elems'[..count] == elems[..count]
    requires g.thisFn == count + 1
    ensures StoreOk(elems'[count := g], count + 1, cap', 0, [])
  {
    var e := elems'[count := g];
    forall i | 0 <= i < count + 1 && e[i].state != Dead
      ensures e[i].thisFn == i + 1
    {
      if i < count {
        assert e[i] == elems'[..count][i] == elems[..count][i] == elems[i];
      }
    }
  }

  /** Reusing the head of the free-list: the head slot is DEAD, and writing
      `g` into it while the head moves to the index the slot stored keeps the
      invariant. */
  lemma ReuseKeepsStore(elems: seq<FunctionObject>, count: int, cap: int,
                        nextFree: Handle, freeList: seq<Handle>, g: FunctionObject)
    requires StoreOk(elems, count, cap, nextFree, freeList) && nextFree != 0
    requires g.thisFn == nextFree
    ensures 1 <= nextFree <= count && elems[nextFree - 1].state == Dead
    ensures StoreOk(elems[nextFree - 1 := g], count, cap, elems[nextFree - 1].thisFn, freeList[1..])
  {
    var list := freeList[1..];
    var e := elems[nextFree - 1 := g];
    assert freeList[0] == nextFree;
    ChainAt(elems, count, freeList, 0);
    if list != [] {
      ChainAt(elems, count, freeList, 1);
      assert Link(freeList, 1) == Link(list, 0);
      assert list[0] == freeList[1] != freeList[0];
    }
    forall k | 0 <= k < |list|
      ensures ChainEntry(e, count, list, k)
    {
      ChainAt(elems, count, freeList, k + 1);
      assert list[k] == freeList[k + 1] != freeList[0];
      assert Link(freeList, k + 1) == Link(list, k);
    }
    DistinctTail(freeList);
    forall i | 0 <= i < count && e[i].state != Dead
      ensures e[i].thisFn == i + 1
    {
    }
  }

  /** Freeing a live slot `h`: it is not on the free-list and records `h`;
      marking it DEAD, linking it to the old head and making it the head
      keeps the invariant. */
  lemma FreeKeepsStore(elems: seq<FunctionObject>, count: int, cap: int,
                       nextFree: Handle, freeList: seq<Handle>, h: Handle, dead: FunctionObject)
    requires StoreOk(elems, count, cap, nextFree, freeList)
    requires 1 <= h <= count && elems[h - 1].state != Dead
    requires dead.state == Dead && dead.thisFn == nextFree
    ensures elems[h - 1].thisFn == h
    ensures StoreOk(elems[h - 1 := dead], count, cap, h, [h] + freeList)
  {
    var list, e := [h] + freeList, elems[h - 1 := dead];
    forall k | 0 <= k < |freeList|
      ensures freeList[k] != h
    {
      ChainAt(elems, count, freeList, k);
    }
    forall k | 0 <= k < |list|
      ensures ChainEntry(e, count, list, k)
    {
      if k > 0 {
        ChainAt(elems, count, freeList, k - 1);
        assert Link(list, k) == Link(freeList, k - 1);
        var x := freeList[k - 1];
        assert list[k] == x && x != h;
      }
    }
    DistinctCons(h, freeList);
  }

  class FunctionStore {
    /** The allocated buffer; its length is always `cap`. */
    var elems: seq<FunctionObject>
    var count: int
    var cap: int
    var nextFree: Handle
    /** The slots on the free-list, head first. */
    ghost var freeList: seq<Handle>

    ghost predicate Valid()
      reads this
    {
      StoreOk(elems, count, cap, nextFree, freeList)
    }

    /** A zero-initialised store. */
    constructor ()
      ensures Valid() && count == 0 && cap == 0 && nextFree == 0 && freeList == []
    {
      elems, count, cap, nextFree := [], 0, 0, 0;
      freeList := [];
    }

    /** new_handle: with an empty free-list appends `f` at `count` and
        returns `count + 1`; otherwise reuses the head slot of the free-list
        (which the invariant shows is DEAD, the source's assertion) and
        advances the head to the index stored in that slot. */
    method NewHandle(f: FunctionObject) returns (h: Handle)
      requires Valid()
      modifies this
      ensures Valid()
      ensures old(nextFree) == 0 ==>
        && h == old(count) + 1 && count == old(count) + 1
        && cap == (if old(count) >= old(cap) then Grown(old(cap)) else old(cap))
        && elems[..old(count)] == old(elems)[..old(count)]
        && freeList == old(freeList) && nextFree == 0
      ensures old(nextFree) != 0 ==>
        && h == old(nextFree) && count == old(count) && cap == old(cap)
        && old(elems)[h - 1].state == Dead
        && nextFree == old(elems)[h - 1].thisFn
        && freeList == old(freeList)[1..]
        && elems == old(elems)[h - 1 := elems[h - 1]]
      ensures 1 <= h <= count && elems[h - 1] == f.(thisFn := h)
    {
      if nextFree == 0 {
        h := Append(f);
      } else {
        h := Reuse(f);
      }
    }

    /** The branch of new_handle taken with an empty free-list. */
    method Append(f: FunctionObject) returns (h: Handle)
      requires Valid() && nextFree == 0
      modifies this
      ensures Valid()
      ensures h == old(count) + 1 && count == old(count) + 1
      ensures cap == (if old(count) >= old(cap) then Grown(old(cap)) else old(cap))
      ensures elems[..old(count)] == old(elems)[..old(count)]
      ensures freeList == old(freeList) && nextFree == 0
      ensures elems[h - 1] == f.(thisFn := h)
    {
      EmptyFreeList(elems, count, cap, nextFree, freeList);
      var g := f.(thisFn := count + 1);
      var buf, newCap := elems, cap;
      if count >= cap {
        newCap := Grown(cap);
        buf := elems + seq(newCap - cap, _ => g);
      }
      assert buf[..count] == elems[..count];
      AppendKeepsStore(elems, count, cap, buf, newCap, g);
      elems, cap := buf[count := g], newCap;
      assert elems[..count] == buf[..count];
      count := count + 1;
      h := g.thisFn;
    }

    /** The branch of new_handle that reuses the head of the free-list. */
    method Reuse(f: FunctionObject) returns (h: Handle)
      requires Valid() && nextFree != 0
      modifies this
      ensures Valid()
      ensures h == old(nextFree) && count == old(count) && cap == old(cap)
      ensures old(elems)[h - 1].state == Dead
      ensures nextFree == old(elems)[h - 1].thisFn
      ensures freeList == old(freeList)[1..]
      ensures elems == old(elems)[h - 1 := f.(thisFn := h)]
    {
      var g := f.(thisFn := nextFree);
      ReuseKeepsStore(elems, count, cap, nextFree, freeList, g);
      var next := elems[nextFree - 1].thisFn;
      elems := elems[nextFree - 1 := g];
      h := nextFree;
      nextFree := next;
      freeList := freeList[1..];
    }

    /** free_handle: rejects handles 0 and 1 and a slot that is already
        DEAD; marks the slot DEAD, stores the previous free-list head in it,
        resets its stack top, and makes `h` the new head. */
    method FreeHandle(h: Handle)
      requires Valid()
      requires h != 0 && h != 1 && h <= count
      requires elems[h - 1].state != Dead
      modifies this
      ensures Valid()
      ensures nextFree == h && freeList == [h] + old(freeList)
      ensures count == old(count) && cap == old(cap)
      ensures elems == old(elems)[h - 1 := old(elems)[h - 1].(
        state := Dead, thisFn := old(nextFree), stackTop := old(elems)[h - 1].stack + STACK_SIZE)]
    {
      var f := elems[h - 1];
      var next := f.thisFn;
      var dead := f.(state := Dead, thisFn := nextFree, stackTop := f.stack + STACK_SIZE);
      FreeKeepsStore(elems, count, cap, nextFree, freeList, h, dead);
      elems := elems[h - 1 := dead];
      nextFree := next;
      freeList := [h] + freeList;
    }
  }

  /** Freeing a slot and then allocating again hands back the same handle:
      the free-list is LIFO. */
  method FreeThenNewReuses(store: FunctionStore, h: Handle, f: FunctionObject) returns (h': Handle)
    requires store.Valid()
    requires h != 0 && h != 1 && h <= store.count && store.elems[h - 1].state != Dead
    modifies store
    ensures store.Valid()
    ensures h' == h && store.nextFree == old(store.nextFree) && store.count == old(store.count)
  {
    store.FreeHandle(h);
    h' := store.NewHandle(f);
  }
}
