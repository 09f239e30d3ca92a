/** The dependency-graph scheduling policy of src/graph_scheduler.c: a deque
    of `Node`s (one per live task) and a hash map from handle index to
    `Node`. The front of the deque is the running task; a task that awaits
    another records itself as the other's `parent` and is put back in front
    when the other finishes. */
module GraphScheduler {
  import opened Wrappers
  import opened HashMaps

  /** `sizeof(int)`: the key size the graph passes to the hash map. */
  const INT_SIZE: int := 4
  const INT_MAX: int := 0x7fff_ffff

  /** A C `int` cast of a wider integer (two's complement truncation). */
  function Int32(x: int): (r: int)
    ensures -0x8000_0000 <= r <= INT_MAX
    ensures -0x8000_0000 <= x <= INT_MAX ==> r == x
  {
    (x + 0x8000_0000) % 0x1_0000_0000 - 0x8000_0000
  }

  /** int_hash_fn: the key, read as an `int`, converted to `uint64_t`. */
  function IntHash(x: int, size: int): (r: nat)
    requires size == INT_SIZE
    ensures 0 <= x <= INT_MAX ==> r == x
  {
    Int32(x) % 0x1_0000_0000_0000_0000
  }

  /** int_eql_fn: the difference of the two keys read as `int`s, wrapped to
      an `int`. */
  function IntEql(x: int, y: int, size: int): (r: int)
    requires size == INT_SIZE
    ensures r == 0 <==> Int32(x) == Int32(y)
  {
    Int32(Int32(x) - Int32(y))
  }

  /** int_eql_fn is an equality on the keys it accepts. */
  lemma IntEqlIsEquivalence()
    ensures IsEquivalence(IntEql)
  {
    forall x, y, s | KeyEq(IntEql, x, y, s)
      ensures KeyEq(IntEql, y, x, s)
    {
    }
    forall x, y, z, s | KeyEq(IntEql, x, y, s) && KeyEq(IntEql, y, z, s)
      ensures KeyEq(IntEql, x, z, s)
    {
    }
  }

  class Node {
    var parent: Node?
    var h: Handle
    var inQueue: bool

    /** `calloc(1, sizeof(Node))`. */
    constructor ()
      ensures parent == null && h == 0 && !inQueue
    {
      parent := null;
      h := 0;
      inQueue := false;
    }
  }

  /** The deque of nodes: `elems[start..end]` are queued, front first, in a
      buffer of `cap` slots. Its four operations are not part of the shown
      source; they are defined here from their uses. */
  class NodeQueue {
    var elems: seq<Node?>
    var start: int
    var end: int
    var cap: int

    ghost predicate Shape()
      reads this
    {
      0 <= start <= end <= cap == |elems|
    }

    ghost function Items(): seq<Node?>
      reads this
      requires Shape()
    {
      elems[start..end]
    }

    /** The invariant verify_queue checks: bounds, and the queued nodes are
        present, flagged `in_queue`, carry a nonzero handle and are pairwise
        distinct. */
    ghost predicate QueueInvariant()
      reads this, elems
    {
      && 0 <= start && end <= cap && 0 <= end && start <= end && cap == |elems|
      && (forall i :: start <= i < end ==> elems[i] != null && elems[i].inQueue && elems[i].h != 0)
      && (forall i, j :: start <= i < j < end ==> elems[i] != elems[j])
    }

    /** The invariant, stated on the queued nodes themselves. */
    lemma InvariantIsGoodItems()
      requires Shape()
      ensures QueueInvariant() <==> GoodItems(Items())
    {
      var s := Items();
      assert forall k :: 0 <= k < |s| ==> s[k] == elems[start + k];
      if GoodItems(s) {
        forall i, j | start <= i < j < end
          ensures elems[i] != elems[j]
        {
          assert elems[i] == s[i - start] && elems[j] == s[j - start];
        }
      }
    }

    constructor ()
      ensures Shape() && Items() == [] && QueueInvariant() && elems == []
    {
      elems := [];
      start := 0;
      end := 0;
      cap := 0;
    }

    /** verify_queue, with each failed assertion reported as `false`. */
    method VerifyQueue() returns (ok: bool)
      requires |elems| == cap
      ensures ok <==> QueueInvariant()
    {
      if !(0 <= start && end <= cap && 0 <= end && start <= end) {
        return false;
      }
      var i := start;
      while i < end
        invariant start <= i <= end
        invariant forall k :: start <= k < i ==> elems[k] != null && elems[k].inQueue && elems[k].h != 0
        invariant forall k, l :: start <= k < i && k < l < end ==> elems[k] != elems[l]
      {
        if elems[i] == null || !elems[i].inQueue || elems[i].h == 0 {
          return false;
        }
        var j := i + 1;
        while j < end
          invariant i + 1 <= j <= end
          invariant forall l :: i < l < j ==> elems[i] != elems[l]
        {
          if elems[i] == elems[j] {
            return false;
          }
          j := j + 1;
        }
        i := i + 1;
      }
      return true;
    }

    /** queue_push_back: grows the buffer to `cap * 2 + 10` when full. */
    method PushBack(n: Node)
      requires Shape()
      modifies this
      ensures Shape() && Items() == old(Items()) + [n]
    {
      if end == cap {
        var newCap := cap * 2 + 10;
        elems := elems + seq(newCap - cap, _ => null);
        cap := newCap;
      }
      elems := elems[end := n];
      end := end + 1;
    }

    /** queue_push_front: uses the slot before `start`, or shifts the queue
        up by one when there is none. */
    method PushFront(n: Node)
      requires Shape()
      modifies this
      ensures Shape() && Items() == [n] + old(Items())
    {
      if start > 0 {
        start := start - 1;
        elems := elems[start := n];
      } else {
        var newCap := if end == cap then cap * 2 + 10 else cap;
        elems := [n] + elems[..end] + seq(newCap - end - 1, _ => null);
        end := end + 1;
        cap := newCap;
      }
    }

    /** queue_pop_front: the front node, or null on an empty queue. */
    method PopFront() returns (n: Node?)
      requires Shape()
      modifies this
      ensures Shape() && elems == old(elems)
      ensures old(Items()) == [] ==> n == null && Items() == []
      ensures old(Items()) != [] ==> n == old(Items())[0] && Items() == old(Items())[1..]
    {
      if start == end {
        return null;
      }
      n := elems[start];
      start := start + 1;
    }

    /** queue_peek_front: the front node, or null on an empty queue. */
    method PeekFront() returns (n: Node?)
      requires Shape()
      ensures Items() == [] ==> n == null
      ensures Items() != [] ==> n == Items()[0]
    {
      if start == end {
        return null;
      }
      n := elems[start];
    }
  }

  /** The queued nodes are present, flagged `in_queue`, carry a nonzero
      handle and are pairwise distinct. */
  ghost predicate GoodItems(s: seq<Node?>)
    reads s`inQueue, s`h
  {
    && (forall k :: 0 <= k < |s| ==> s[k] != null && s[k].inQueue && s[k].h != 0)
    && (forall k, l :: 0 <= k < l < |s| ==> s[k] != s[l])
  }

  lemma GoodItemsTail(s: seq<Node?>)
    requires GoodItems(s) && s != []
    ensures GoodItems(s[1..]) && s[0] !in s[1..]
  {
    forall k | 0 <= k < |s| - 1
      ensures s[1..][k] != s[0]
    {
      assert s[1..][k] == s[k + 1];
    }
  }

  lemma GoodItemsSnoc(s: seq<Node?>, n: Node)
    requires GoodItems(s) && n !in s && n.inQueue && n.h != 0
    ensures GoodItems(s + [n])
  {
    var t := s + [n];
    forall k, l | 0 <= k < l < |t|
      ensures t[k] != t[l]
    {
      if l == |s| {
        assert t[k] == s[k] && s[k] in s;
      }
    }
  }

  lemma GoodItemsCons(n: Node, s: seq<Node?>)
    requires GoodItems(s) && n !in s && n.inQueue && n.h != 0
    ensures GoodItems([n] + s)
  {
    var t := [n] + s;
    forall k, l | 0 <= k < l < |t|
      ensures t[k] != t[l]
    {
      assert t[l] == s[l - 1] && s[l - 1] in s;
      if k > 0 {
        assert t[k] == s[k - 1];
      }
    }
  }

  /** Which node graph_register_task uses for a hash node whose `val` is
      (`true`) or is not (`false`) already set. */
  datatype NodeChoice = AllocateNode | ReuseNode | NullNode

  /** Lines 54-58 as written: only a NULL `val` gets a node; otherwise `n`
      stays NULL and line 59 dereferences it. */
  function RegisterChoiceAsWritten(valSet: bool): (r: NodeChoice)
    ensures r == NullNode <==> valSet
  {
    if !valSet then AllocateNode else NullNode
  }

  /** The evidently intended choice: reuse the node a recycled hash node
      still points to. Graph.Register follows it. */
  function RegisterChoice(valSet: bool): (r: NodeChoice)
    ensures r != NullNode
    ensures r == ReuseNode <==> valSet
  {
    if !valSet then AllocateNode else ReuseNode
  }

  /** Rotating the queue: what graph_next_task does to its order. */
  function Rotate<T>(s: seq<T>): (r: seq<T>)
    ensures |r| == |s|
    ensures s != [] ==> r[|r| - 1] == s[0] && r[..|r| - 1] == s[1..]
  {
    if s == [] then [] else s[1..] + [s[0]]
  }

  /** Rotation neither loses nor duplicates a queued node. */
  lemma RotatePermutes<T>(s: seq<T>)
    ensures multiset(Rotate(s)) == multiset(s)
  {
    if s != [] {
      assert s == [s[0]] + s[1..];
    }
  }

  /** The queued part `s` of the deque holds nodes of `nodes`, keeps the
      verify_queue invariant, and `in_queue` says exactly which nodes are
      queued. */
  ghost predicate ItemsOk(s: seq<Node?>, nodes: set<Node>)
    reads nodes`inQueue, nodes`h
  {
    && (forall k :: 0 <= k < |s| ==> s[k] in nodes)
    && GoodItems(s)
    && (forall n :: n in nodes ==> (n.inQueue <==> n in s))
  }

  /** Moving the front node to the back keeps the queue invariant. */
  lemma ItemsOkRotate(s: seq<Node?>, nodes: set<Node>)
    requires ItemsOk(s, nodes) && s != []
    ensures ItemsOk(Rotate(s), nodes)
  {
    GoodItemsTail(s);
    assert s[0] != null;
    GoodItemsSnoc(s[1..], s[0]);
    RotateMembers(s);
    var r := Rotate(s);
    forall k | 0 <= k < |r|
      ensures r[k] in nodes
    {
      assert r[k] in s;
    }
  }

  /** Rotation keeps the same members. */
  lemma RotateMembers<T>(s: seq<T>)
    ensures forall x :: x in Rotate(s) <==> x in s
  {
    RotatePermutes(s);
    assert forall x :: x in Rotate(s) <==> x in multiset(Rotate(s));
    assert forall x :: x in s <==> x in multiset(s);
  }

  function RotateN<T>(s: seq<T>, k: nat): (r: seq<T>)
    ensures |r| == |s|
  {
    if k == 0 then s else Rotate(RotateN(s, k - 1))
  }

  /** One more rotation of a queue already rotated by `j`. */
  lemma RotateShift<T>(s: seq<T>, j: nat)
    requires j < |s|
    ensures Rotate(s[j..] + s[..j]) == s[j + 1..] + s[..j + 1]
  {
    var t := s[j..] + s[..j];
    assert t[0] == s[j];
    assert t[1..] == s[j + 1..] + s[..j];
    assert s[..j] + [s[j]] == s[..j + 1];
  }

  /** `k` rotations, for `k` up to the queue length, bring element `k` to
      the front with the earlier ones behind the rest in their order. */
  lemma {:induction false} RotateNIsShift<T>(s: seq<T>, k: nat)
    requires k <= |s|
    ensures RotateN(s, k) == s[k..] + s[..k]
  {
    if k == 0 {
      assert s[0..] + s[..0] == s;
    } else {
      var p := RotateN(s, k - 1);
      RotateNIsShift(s, k - 1);
      RotateShift(s, k - 1);
      assert RotateN(s, k) == Rotate(p);
    }
  }

  lemma {:induction false} RotateNAdd<T>(s: seq<T>, a: nat, b: nat)
    ensures RotateN(s, a + b) == RotateN(RotateN(s, a), b)
  {
    if b > 0 {
      RotateNAdd(s, a, b - 1);
    }
  }

  /** The rotation order repeats every `|s|` steps: round-robin. */
  lemma RotateNPeriod<T>(s: seq<T>, k: nat)
    ensures RotateN(s, k + |s|) == RotateN(s, k)
  {
    var t := RotateN(s, k);
    RotateNAdd(s, k, |s|);
    RotateNIsShift(t, |t|);
    assert t[|t|..] + t[..|t|] == t;
  }

  /** Two iterators queued alone alternate on the front, as in the
      two_iters test: after an even number of turns the first is in front,
      after an odd number the second. */
  lemma {:induction false} TwoTasksAlternate<T>(a: T, b: T, m: nat)
    ensures RotateN([a, b], 2 * m)[0] == a && RotateN([a, b], 2 * m + 1)[0] == b
  {
    var s := [a, b];
    if m == 0 {
      RotateNIsShift(s, 0);
      RotateNIsShift(s, 1);
    } else {
      TwoTasksAlternate(a, b, m - 1);
      var k := 2 * (m - 1);
      RotateNPeriod(s, k);
      RotateNPeriod(s, k + 1);
      assert k + |s| == 2 * m && k + 1 + |s| == 2 * m + 1;
    }
  }

  class Graph {
    const queue: NodeQueue
    const handleToNode: HashMap<Node>
    /** Every node the graph has allocated. */
    ghost var nodes: set<Node>
    /** The hash node of each registered handle. */
    ghost var entryOf: map<Handle, nat>

    /** The handles with a live hash-map entry. */
    ghost function Registered(): set<Handle>
      reads this`entryOf
    {
      entryOf.Keys
    }

    /** `h` is registered and its hash node holds a node. */
    ghost predicate Names(h: Handle)
      reads this`entryOf, handleToNode
    {
      h in entryOf && entryOf[h] < |handleToNode.nodes| && handleToNode.nodes[entryOf[h]].val.Some?
    }

    /** The node registered for `h`. */
    ghost function NodeOf(h: Handle): Node
      reads this`entryOf, handleToNode
      requires Names(h)
    {
      handleToNode.nodes[entryOf[h]].val.value
    }

    /** The hash map is well formed and keyed by C ints. */
    ghost predicate MapOk()
      reads handleToNode
    {
      && handleToNode.Valid() && handleToNode.hashFn == IntHash && handleToNode.eqlFn == IntEql
      && |handleToNode.owner| == |handleToNode.nodes|
    }

    /** A hash node and its `Node`: live ones are keyed by their handle and
        point to that handle's node; recycled ones point to a node that has
        been released (`h.idx == 0`). */
    ghost predicate Entry(i: nat)
      reads this`nodes, this`entryOf, handleToNode, nodes`h
      requires i < |handleToNode.nodes| == |handleToNode.owner|
    {
      var e := handleToNode.nodes[i];
      && e.keySize == INT_SIZE && e.val.Some? && e.val.value in nodes
      && if i in handleToNode.Live() then
           1 <= e.key <= INT_MAX && e.hash == e.key && e.val.value.h == e.key
         else
           e.val.value.h == 0
    }

    /** Every hash node has its own `Node`; the live hash nodes are exactly
        the entries of the registered handles; a node that carries a handle
        is the one registered for it. */
    ghost predicate Registry()
      reads this`nodes, this`entryOf, handleToNode, nodes`h
    {
      && |handleToNode.owner| == |handleToNode.nodes|
      && (forall i :: 0 <= i < |handleToNode.nodes| ==> Entry(i))
      && (forall i, j :: 0 <= i < j < |handleToNode.nodes| ==> handleToNode.nodes[i].val != handleToNode.nodes[j].val)
      && (forall h :: h in entryOf ==> Names(h) && entryOf[h] in handleToNode.Live() && handleToNode.nodes[entryOf[h]].key == h)
      && (forall i :: i in handleToNode.Live() && i < |handleToNode.nodes| ==>
            handleToNode.nodes[i].key >= 0 && handleToNode.nodes[i].key as nat in entryOf && entryOf[handleToNode.nodes[i].key as nat] == i)
      && (forall n :: n in nodes && n.h != 0 ==> Names(n.h) && NodeOf(n.h) == n)
    }

    /** Parents are nodes of the graph. */
    ghost predicate Links()
      reads this`nodes, nodes`parent
    {
      forall n :: n in nodes ==> n.parent == null || n.parent in nodes
    }

    /** The deque's queued part holds nodes of the graph, keeps the
        verify_queue invariant, and `in_queue` says exactly which nodes
        are queued. */
    ghost predicate QueueOk()
      reads this`nodes, queue, nodes`inQueue, nodes`h
    {
      queue.Shape() && ItemsOk(queue.Items(), nodes)
    }

    ghost predicate Valid()
      reads this, queue, handleToNode, nodes
    {
      MapOk() && Registry() && Links() && QueueOk()
    }

    /** The zero-initialised graph of use_graph_scheduler, with the integer
        hash and equality callbacks. */
    constructor ()
      ensures Valid() && queue.Items() == [] && Registered() == {} && nodes == {}
      ensures fresh(queue) && fresh(handleToNode)
    {
      queue := new NodeQueue();
      handleToNode := new HashMap(IntHash, IntEql);
      nodes := {};
      entryOf := map[];
    }

    /** The registry does not depend on queue membership or parents. */
    twostate lemma RegistryKept()
      requires old(Registry()) && unchanged(this, handleToNode)
      requires forall n :: n in old(nodes) ==> n.h == old(n.h)
      ensures Registry()
    {
    }

    /** Dropping the entry `i` of `h` and releasing its node `n` keeps the
        registry. */
    twostate lemma RegistryAfterFree(new h: Handle, new i: nat, n: Node)
      requires old(Registry()) && h in old(entryOf) && i == old(entryOf[h]) && i < old(|handleToNode.nodes|)
      requires old(handleToNode.nodes[i].val) == Some(n)
      requires handleToNode.nodes == old(handleToNode.nodes) && |handleToNode.owner| == |handleToNode.nodes|
      requires handleToNode.Live() == old(handleToNode.Live()) - {i}
      requires entryOf == old(entryOf) - {h} && nodes == old(nodes)
      requires n.h == 0 && forall m :: m in nodes && m != n ==> m.h == old(m.h)
      ensures Registry()
    {
      forall j | 0 <= j < |handleToNode.nodes|
        ensures Entry(j)
      {
        assert old(Entry(j));
        if j != i {
          assert handleToNode.nodes[j].val != old(handleToNode.nodes[i].val);
        }
      }
      forall g | g in entryOf
        ensures Names(g) && entryOf[g] in handleToNode.Live() && handleToNode.nodes[entryOf[g]].key == g
      {
        assert old(handleToNode.nodes[entryOf[g]].key) == g != h;
      }
      forall m | m in nodes && m.h != 0
        ensures Names(m.h) && NodeOf(m.h) == m
      {
        assert old(Names(m.h) && NodeOf(m.h) == m);
      }
    }

    /** Making the hash node `i`, keyed by the new handle `h`, point to
        the node `n` now carrying `h` keeps the registry. */
    twostate lemma RegistryAfterRegister(new h: Handle, new i: nat, new n: Node)
      requires old(Registry()) && 1 <= h <= INT_MAX && h !in old(entryOf)
      requires i !in old(handleToNode.Live()) && handleToNode.Live() == old(handleToNode.Live()) + {i}
      requires |handleToNode.owner| == |handleToNode.nodes| && i < |handleToNode.nodes|
      requires |handleToNode.nodes| == old(|handleToNode.nodes|) ||
        (|handleToNode.nodes| == old(|handleToNode.nodes|) + 1 && i == old(|handleToNode.nodes|))
      requires forall j :: 0 <= j < old(|handleToNode.nodes|) && j != i ==> handleToNode.nodes[j] == old(handleToNode.nodes[j])
      requires handleToNode.nodes[i] == HashNode(h, INT_SIZE, Some(n), h)
      requires (i < old(|handleToNode.nodes|) && old(handleToNode.nodes[i].val) == Some(n)) || n !in old(nodes)
      requires nodes == old(nodes) + {n} && entryOf == old(entryOf)[h := i]
      requires n.h == h && forall m :: m in old(nodes) && m != n ==> m.h == old(m.h)
      ensures Registry()
      ensures Names(h) && NodeOf(h) == n
      ensures forall g :: g in old(entryOf) ==> old(Names(g)) && Names(g) && NodeOf(g) == old(NodeOf(g))
    {
      forall j | 0 <= j < |handleToNode.nodes| && j != i
        ensures Entry(j) && handleToNode.nodes[j].val != Some(n)
      {
        assert handleToNode.nodes[j] == old(handleToNode.nodes[j]);
        assert old(Entry(j));
        if i < old(|handleToNode.nodes|) && old(handleToNode.nodes[i].val) == Some(n) {
          assert old(handleToNode.nodes[j].val != handleToNode.nodes[i].val) by {
            if j < i {
              assert old(handleToNode.nodes[j].val) != old(handleToNode.nodes[i].val);
            } else {
              assert old(handleToNode.nodes[i].val) != old(handleToNode.nodes[j].val);
            }
          }
        }
      }
      assert Entry(i);
      forall g | g in entryOf
        ensures Names(g) && entryOf[g] in handleToNode.Live() && handleToNode.nodes[entryOf[g]].key == g
        ensures g != h ==> old(Names(g)) && NodeOf(g) == old(NodeOf(g))
      {
        if g != h {
          assert old(entryOf[g]) != i;
        }
      }
      forall j | j in handleToNode.Live() && j < |handleToNode.nodes|
        ensures handleToNode.nodes[j].key >= 0 && handleToNode.nodes[j].key as nat in entryOf
        ensures entryOf[handleToNode.nodes[j].key as nat] == j
      {
        if j != i {
          assert old(handleToNode.nodes[j].key) != h;
        }
      }
      forall m | m in nodes && m.h != 0
        ensures Names(m.h) && NodeOf(m.h) == m
      {
        if m != n {
          assert old(Names(m.h) && NodeOf(m.h) == m);
          assert m.h != h;
          assert old(entryOf[m.h]) != i;
        }
      }
    }

    /** Registered handles are positive C ints. */
    lemma RegisteredInRange(h: Handle)
      requires Registry() && h in Registered()
      ensures 1 <= h <= INT_MAX
    {
      assert Entry(entryOf[h]);
    }

    /** The hash map finds a handle exactly when it is registered, and then
        finds its entry. */
    lemma LookupRegistered(h: Handle)
      requires MapOk() && Registry() && 1 <= h <= INT_MAX
      ensures handleToNode.CanHash(h, INT_SIZE) && handleToNode.EqlDefined(h, INT_SIZE)
      ensures handleToNode.Lookup(h, INT_SIZE).Some? <==> h in Registered()
      ensures h in Registered() ==> handleToNode.Lookup(h, INT_SIZE) == Some(entryOf[h])
    {
      handleToNode.LookupMeaning(h, INT_SIZE);
      if h in Registered() {
        var i := entryOf[h];
        assert Entry(i);
        assert handleToNode.Matches(i, h, INT_SIZE, IntHash(h, INT_SIZE));
      }
      if handleToNode.Lookup(h, INT_SIZE).Some? {
        var i := handleToNode.Lookup(h, INT_SIZE).value;
        assert Entry(i);
      }
    }

    /** The running node: the front of the queue. */
    ghost function Front(): Node
      reads this`nodes, queue, nodes`inQueue, nodes`h
      requires QueueOk() && queue.Items() != []
    {
      queue.Items()[0]
    }

    /** The node parked on the head of the hash map's free-list, which the
        next registration reuses. */
    ghost function FreeNode(): Node
      reads this, queue, handleToNode, nodes
      requires Valid() && handleToNode.free != []
    {
      assert handleToNode.free[0] < |handleToNode.nodes| && Entry(handleToNode.free[0]);
      handleToNode.nodes[handleToNode.free[0]].val.value
    }

    /** graph_current_task: the handle of the front node; nothing changes. */
    method Current() returns (h: Handle)
      requires Valid() && queue.Items() != []
      ensures h == Front().h && h in Registered()
    {
      var n := queue.PeekFront();
      h := n.h;
    }

    /** queue_pop_front then queue_push_back of the popped node. */
    method RotateQueue()
      requires QueueOk() && queue.Items() != []
      modifies queue
      ensures QueueOk() && queue.Items() == Rotate(old(queue.Items()))
    {
      ghost var s := queue.Items();
      ItemsOkRotate(s, nodes);
      var cur := queue.PopFront();
      queue.PushBack(cur);
    }

    /** queue_pop_front of the running node, which then leaves the queue
        (`in_queue = false`). */
    method PopRunning() returns (n: Node)
      requires QueueOk() && queue.Items() != []
      modifies queue, nodes`inQueue
      ensures QueueOk()
      ensures n == old(queue.Items()[0]) && n in nodes && !n.inQueue && n.h != 0
      ensures queue.Items() == old(queue.Items())[1..]
      ensures forall m :: m in nodes && m != n ==> m.inQueue == old(m.inQueue)
    {
      ghost var s := queue.Items();
      var cur := queue.PopFront();
      GoodItemsTail(s);
      n := cur;
      n.inQueue := false;
    }

    /** queue_push_front of a node that is not queued (`in_queue = true`). */
    method PushFrontNode(n: Node)
      requires QueueOk() && n in nodes && !n.inQueue && n.h != 0
      modifies queue, n`inQueue
      ensures QueueOk() && n.inQueue && queue.Items() == [n] + old(queue.Items())
    {
      n.inQueue := true;
      queue.PushFront(n);
      GoodItemsCons(n, old(queue.Items()));
    }

    /** queue_push_back of a node that is not queued (`in_queue = true`). */
    method PushBackNode(n: Node)
      requires QueueOk() && n in nodes && !n.inQueue && n.h != 0
      modifies queue, n`inQueue
      ensures QueueOk() && n.inQueue && queue.Items() == old(queue.Items()) + [n]
    {
      n.inQueue := true;
      queue.PushBack(n);
      GoodItemsSnoc(old(queue.Items()), n);
    }

    /** graph_next_task: the front node goes to the back of the queue and
        the handle of the new front is returned. */
    method Next() returns (h: Handle)
      requires Valid() && queue.Items() != []
      modifies queue
      ensures Valid()
      ensures queue.Items() == Rotate(old(queue.Items()))
      ensures queue.Items() != [] && h == Front().h && h in Registered()
    {
      RotateQueue();
      var next := queue.PeekFront();
      h := next.h;
    }

    /** Whether finishing the front task puts its awaiting parent back on
        the front: it has one and that parent is not queued once the
        finished task has left the queue. */
    ghost predicate Requeues()
      reads this, queue, nodes
      requires QueueOk() && Links() && queue.Items() != []
    {
      var p := Front().parent;
      p != null && (p == Front() || !p.inQueue)
    }

    /** graph_finish_task: the front task leaves the queue; its parent, if
        it was waiting outside the queue, takes the front and becomes the
        next task, otherwise the next queued task does. When nothing is left
        to run, the peek finds no node and `next` is 0: the source asserts
        against that at line 95, before async_return has looked at the
        finished handle; the model leaves the check to its caller (see
        Async.FinishLastAsWritten). */
    method Finish() returns (current: Handle, next: Handle)
      requires Valid() && queue.Items() != []
      requires Requeues() ==> Front().parent.h != 0
      modifies queue, nodes`inQueue
      ensures Valid()
      ensures current == old(Front().h)
      ensures old(Requeues()) ==> queue.Items() == [old(Front().parent)] + old(queue.Items())[1..]
      ensures !old(Requeues()) ==> queue.Items() == old(queue.Items())[1..]
      ensures queue.Items() != [] ==> next == Front().h && next != 0
      ensures queue.Items() == [] ==> next == 0
      ensures old(Front()).inQueue <==> old(Requeues()) && old(Front().parent) == old(Front())
    {
      ghost var requeue := Requeues();
      var cur := PopRunning();
      current := cur.h;
      var parent := cur.parent;
      if parent != null && !parent.inQueue {
        assert requeue;
        next := parent.h;
        PushFrontNode(parent);
      } else {
        assert !requeue;
        var nextNode := queue.PeekFront();
        next := if nextNode == null then 0 else nextNode.h;
      }
      RegistryKept();
    }

    /** The lookup of graph_wait_ready: the node registered for `h`. */
    method FindNode(h: Handle) returns (n: Node)
      requires MapOk() && Registry() && h in Registered()
      ensures n == NodeOf(h) && n in nodes && n.h == h && 1 <= h <= INT_MAX
    {
      RegisteredInRange(h);
      LookupRegistered(h);
      var r := handleToNode.Find(h, INT_SIZE);
      assert Entry(r.value);
      n := handleToNode.nodes[r.value].val.value;
    }

    /** The end of graph_wait_ready: `child` records `n` as its parent
        and, unless already queued, is queued in front. */
    method Adopt(child: Node, n: Node)
      requires QueueOk() && Links() && child in nodes && n in nodes && child.h != 0
      modifies queue, child`parent, child`inQueue
      ensures QueueOk() && Links() && child.parent == n
      ensures !old(child.inQueue) ==> queue.Items() == [child] + old(queue.Items())
      ensures old(child.inQueue) ==> queue.Items() == old(queue.Items())
      ensures forall m :: m in nodes && m != child ==> m.parent == old(m.parent)
    {
      child.parent := n;
      if !child.inQueue {
        PushFrontNode(child);
      }
    }

    /** graph_wait_ready: the front task leaves the queue to wait for
        `h`; the child records it as its parent and, unless already queued,
        is put on the front so that it runs next. Switching away is
        `AsyncSkip` in the Async module. */
    method WaitReady(h: Handle)
      requires Valid() && queue.Items() != [] && h in Registered() && NodeOf(h).parent == null
      modifies queue, nodes`inQueue, nodes`parent
      ensures Valid()
      ensures NodeOf(h).parent == old(Front())
      ensures old(NodeOf(h) == Front() || !NodeOf(h).inQueue) ==>
        queue.Items() == [NodeOf(h)] + old(queue.Items())[1..]
      ensures !old(NodeOf(h) == Front() || !NodeOf(h).inQueue) ==>
        queue.Items() == old(queue.Items())[1..]
      ensures forall m :: m in nodes && m != NodeOf(h) ==> m.parent == old(m.parent)
    {
      var child := FindNode(h);
      WaitFor(child);
      RegistryKept();
    }

    /** The queue work of graph_wait_ready for the node `child` of the
        awaited handle. */
    method WaitFor(child: Node)
      requires QueueOk() && Links() && queue.Items() != [] && child in nodes && child.h != 0
      modifies queue, nodes`inQueue, nodes`parent
      ensures QueueOk() && Links() && child.parent == old(Front())
      ensures old(child == Front() || !child.inQueue) ==> queue.Items() == [child] + old(queue.Items())[1..]
      ensures !old(child == Front() || !child.inQueue) ==> queue.Items() == old(queue.Items())[1..]
      ensures forall m :: m in nodes && m != child ==> m.parent == old(m.parent)
    {
      var n := PopRunning();
      Adopt(child, n);
    }

    /** The end of graph_free_task: an unqueued node gives up its handle. */
    method Release(n: Node)
      requires QueueOk() && n in nodes && !n.inQueue
      modifies n`h, n`inQueue
      ensures QueueOk() && n.h == 0 && !n.inQueue
    {
      n.h := 0;
      n.inQueue := false;
    }

    /** graph_free_task: drops the registration of `h`, which must not be
        queued; its node is parked on the hash map's free-list, marked
        released, for the next registration to reuse. */
    method FreeTask(h: Handle)
      requires Valid() && h in Registered() && !NodeOf(h).inQueue
      modifies this`entryOf, handleToNode, nodes`h, nodes`inQueue
      ensures Valid() && nodes == old(nodes)
      ensures Registered() == old(Registered()) - {h}
      ensures queue.Items() == old(queue.Items())
      ensures old(NodeOf(h)).h == 0 && !old(NodeOf(h)).inQueue
      ensures handleToNode.free != [] && FreeNode() == old(NodeOf(h))
      ensures forall g :: g in Registered() ==> Names(g) && NodeOf(g) == old(NodeOf(g))
      ensures forall m :: m in nodes && m != old(NodeOf(h)) ==> m.h == old(m.h)
    {
      ghost var i := entryOf[h];
      var n := RemoveEntry(h);
      Release(n);
      RegistryAfterFree(h, i, n);
    }

    /** The hash_map_remove call of graph_free_task: the entry of `h`
        moves to the free-list and its node is returned. */
    method RemoveEntry(h: Handle) returns (n: Node)
      requires MapOk() && Registry() && h in Registered()
      modifies this`entryOf, handleToNode
      ensures MapOk() && entryOf == old(entryOf) - {h}
      ensures n == old(NodeOf(h)) && n in nodes
      ensures handleToNode.nodes == old(handleToNode.nodes)
      ensures handleToNode.Live() == old(handleToNode.Live()) - {old(entryOf[h])}
      ensures handleToNode.free == [old(entryOf[h])] + old(handleToNode.free)
    {
      ghost var i := entryOf[h];
      assert Entry(i);
      RegisteredInRange(h);
      LookupRegistered(h);
      IntEqlIsEquivalence();
      var r := handleToNode.Remove(h, INT_SIZE);
      n := handleToNode.nodes[r.value].val.value;
      entryOf := entryOf - {h};
    }

    /** Lines 49-58 of graph_register_task as written: the node choice made
        for the hash node hash_map_insert hands back. Whenever the map has a
        recycled hash node, that node still points to the node of a freed
        task, so `n` is left NULL and line 59 writes through it. The map has
        one after every graph_free_task (see FreeTask). */
    method RegisterAsWritten(h: Handle) returns (choice: NodeChoice)
      requires Valid() && 1 <= h <= INT_MAX && h !in Registered()
      modifies handleToNode
      ensures choice == NullNode <==> old(handleToNode.free) != []
    {
      var i, v := InsertEntry(h);
      choice := RegisterChoiceAsWritten(v.Some?);
    }

    /** graph_register_task, corrected: the node comes from a recycled
        hash node when it has one and is allocated otherwise, reset, and
        queued at the back. */
    method Register(h: Handle)
      requires Valid() && 1 <= h <= INT_MAX && h !in Registered()
      modifies this, queue, handleToNode, nodes`h, nodes`parent, nodes`inQueue
      ensures Valid()
      ensures Registered() == old(Registered()) + {h}
      ensures Names(h) && NodeOf(h).h == h && NodeOf(h).parent == null
      ensures queue.Items() == old(queue.Items()) + [NodeOf(h)]
      ensures nodes == old(nodes) + {NodeOf(h)}
      ensures old(handleToNode.free) != [] ==> NodeOf(h) == old(FreeNode())
      ensures old(handleToNode.free) == [] ==> fresh(NodeOf(h))
      ensures forall g :: g in old(Registered()) ==> Names(g) && NodeOf(g) == old(NodeOf(g))
      ensures forall m :: m in old(nodes) && m != NodeOf(h) ==> m.h == old(m.h) && m.parent == old(m.parent)
    {
      var i, v := InsertEntry(h);
      var n := TakeNode(v, h);
      Bind(h, i, n);
      RegistryAfterRegister(h, i, n);
      assert v.None? ==> fresh(n);
      assert v.Some? ==> n == v.value;
    }

    /** The last store of graph_register_task: hash node `i` points to `n`,
        and `h` is registered with that entry. */
    method Bind(h: Handle, i: nat, n: Node)
      requires MapOk() && i < |handleToNode.nodes|
      modifies this`entryOf, handleToNode
      ensures MapOk() && entryOf == old(entryOf)[h := i]
      ensures handleToNode.nodes == old(handleToNode.nodes)[i := old(handleToNode.nodes)[i].(val := Some(n))]
      ensures handleToNode.Live() == old(handleToNode.Live()) && handleToNode.free == old(handleToNode.free)
    {
      handleToNode.SetVal(i, n);
      entryOf := entryOf[h := i];
    }

    /** The hash_map_insert call of graph_register_task: a hash node keyed
        by the new handle, recycled from the free-list when there is one,
        and the node `v` it still points to. */
    method InsertEntry(h: Handle) returns (i: nat, v: Option<Node>)
      requires MapOk() && Registry() && 1 <= h <= INT_MAX && h !in Registered()
      modifies handleToNode
      ensures MapOk() && |handleToNode.owner| == |handleToNode.nodes|
      ensures i !in old(handleToNode.Live()) && handleToNode.Live() == old(handleToNode.Live()) + {i}
      ensures i < |handleToNode.nodes|
      ensures |handleToNode.nodes| == old(|handleToNode.nodes|) ||
        (|handleToNode.nodes| == old(|handleToNode.nodes|) + 1 && i == old(|handleToNode.nodes|))
      ensures forall j :: 0 <= j < old(|handleToNode.nodes|) && j != i ==> handleToNode.nodes[j] == old(handleToNode.nodes[j])
      ensures handleToNode.nodes[i] == HashNode(h, INT_SIZE, v, h)
      ensures v.Some? ==> i < old(|handleToNode.nodes|) && old(handleToNode.nodes[i].val) == v && v.value in nodes && v.value.h == 0
      ensures old(handleToNode.free) != [] ==> i == old(handleToNode.free[0]) && v.Some?
      ensures old(handleToNode.free) == [] ==> v.None?
    {
      LookupRegistered(h);
      IntEqlIsEquivalence();
      i := handleToNode.Insert(h, INT_SIZE);
      v := handleToNode.nodes[i].val;
      assert v.Some? ==> old(Entry(i)) && i !in old(handleToNode.Live());
      assert old(handleToNode.free) != [] ==> old(Entry(handleToNode.free[0]));
    }

    /** The node of graph_register_task, as the evidently intended code
        chooses it: the recycled node `v` when there is one, otherwise a
        fresh `calloc`; it is reset to hold `h` and queued at the back. */
    method TakeNode(v: Option<Node>, h: Handle) returns (n: Node)
      requires QueueOk() && Links() && 1 <= h
      requires v.Some? ==> v.value in nodes && v.value.h == 0
      modifies this`nodes, queue, nodes`h, nodes`parent, nodes`inQueue
      ensures QueueOk() && Links()
      ensures nodes == old(nodes) + {n} && n.h == h && n.parent == null
      ensures queue.Items() == old(queue.Items()) + [n]
      ensures v.Some? ==> n == v.value
      ensures v.None? ==> fresh(n)
      ensures forall m :: m in old(nodes) && m != n ==> m.h == old(m.h) && m.parent == old(m.parent)
    {
      var choice := RegisterChoice(v.Some?);
      if choice == AllocateNode {
        n := AddNode();
      } else {
        n := v.value;
      }
      ResetNode(n, h);
      PushBackNode(n);
    }

    /** The `calloc` of graph_register_task: a zeroed node joins the graph. */
    method AddNode() returns (n: Node)
      requires QueueOk() && Links()
      modifies this`nodes
      ensures QueueOk() && Links() && nodes == old(nodes) + {n} && fresh(n)
      ensures n.h == 0 && !n.inQueue && n.parent == null
    {
      n := new Node();
      nodes := nodes + {n};
    }

    /** An unqueued node is given the handle `h` and no parent. */
    method ResetNode(n: Node, h: Handle)
      requires QueueOk() && Links() && n in nodes && n.h == 0 && 1 <= h
      modifies n`h, n`parent
      ensures QueueOk() && Links() && n.h == h && n.parent == null && !n.inQueue
    {
      assert !n.inQueue;
      n.h := h;
      n.parent := null;
    }
  }
}
