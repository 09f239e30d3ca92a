/** The separately chained hash map of src/hashmap.c.

    Nodes live in a pool `nodes` whose index stands for the node's address.
    Each cell holds its chain as the sequence of node indices met by
    following `next` from the cell's head, and `free` is the free-list in the
    same form. The ghost `owner` records for every pool node which chain it
    is on, or that it is off every chain; it is what makes chains and the
    free-list disjoint. */
module HashMaps {
  import opened Wrappers

  /** The fields of a `HashNode` other than `next`. The key is the pointer
      value the caller passes (the graph scheduler passes a handle index). */
  datatype HashNode<V> = HashNode(key: int, keySize: int, val: Option<V>, hash: nat)

  /** Where a pool node is: on the chain of a cell, or off every chain. */
  datatype Loc = InChain(cell: nat) | InFree

  /** Every node on chain `c` is a pool node owned by chain `c` and sits in
      cell `hash % |cells|`; while a rehash from `oldCap` cells is under way,
      the cells from `done` below `oldCap` may still hold nodes placed by the
      old modulus. */
  ghost predicate Placed<V>(cells: seq<seq<nat>>, owner: seq<Loc>, nodes: seq<HashNode<V>>, oldCap: nat, done: nat)
  {
    && |owner| == |nodes|
    && forall c, i :: 0 <= c < |cells| && 0 <= i < |cells[c]| ==>
      && cells[c][i] < |nodes|
      && owner[cells[c][i]] == InChain(c)
      && (nodes[cells[c][i]].hash % |cells| == c || (done <= c < oldCap && nodes[cells[c][i]].hash % oldCap == c))
  }

  ghost predicate ChainsDistinct(cells: seq<seq<nat>>)
  {
    forall c :: 0 <= c < |cells| ==> Distinct(cells[c])
  }

  /** The free-list holds distinct pool nodes that are off every chain. */
  ghost predicate FreeOk(free: seq<nat>, owner: seq<Loc>)
  {
    && Distinct(free)
    && forall i :: 0 <= i < |free| ==> free[i] < |owner| && owner[free[i]] == InFree
  }

  /** A node that records a chain is on that chain. */
  ghost predicate Owned(cells: seq<seq<nat>>, owner: seq<Loc>)
  {
    forall n :: 0 <= n < |owner| && owner[n].InChain? ==> owner[n].cell < |cells| && n in cells[owner[n].cell]
  }

  /** The shape of the whole map while a rehash from `oldCap` cells has
      finished the cells below `done`. */
  ghost predicate Layout<V>(cells: seq<seq<nat>>, owner: seq<Loc>, nodes: seq<HashNode<V>>, free: seq<nat>,
                            oldCap: nat, done: nat)
  {
    && Placed(cells, owner, nodes, oldCap, done)
    && ChainsDistinct(cells)
    && FreeOk(free, owner)
    && Owned(cells, owner)
  }

  /** The pool nodes some chain owns. */
  ghost function LiveOf(owner: seq<Loc>): set<nat>
  {
    set n | 0 <= n < |owner| && owner[n].InChain?
  }

  /** Moving pool node `n` onto a chain adds it to the live nodes, moving it
      off every chain removes it. */
  lemma LiveSet(owner: seq<Loc>, n: nat, loc: Loc)
    requires n < |owner|
    ensures loc.InChain? ==> LiveOf(owner[n := loc]) == LiveOf(owner) + {n}
    ensures loc.InFree? ==> LiveOf(owner[n := loc]) == LiveOf(owner) - {n}
  {
  }

  /** A new pool node starts off every chain. */
  lemma LiveAppendFree(owner: seq<Loc>)
    ensures LiveOf(owner + [InFree]) == LiveOf(owner)
  {
  }

  /** The equality callback `eq` calls keys `x` and `y` of size `s` equal. */
  ghost predicate KeyEq(eq: (int, int, int) --> int, x: int, y: int, s: int)
  {
    eq.requires(x, y, s) && eq(x, y, s) == 0
  }

  /** The equality callback behaves as an equality wherever it is defined:
      it is symmetric and transitive. The map relies on it to hold each key
      at most once. */
  ghost predicate IsEquivalence(eq: (int, int, int) --> int)
  {
    && (forall x, y, s {:trigger KeyEq(eq, x, y, s)} :: KeyEq(eq, x, y, s) ==> KeyEq(eq, y, x, s))
    && (forall x, y, z, s {:trigger KeyEq(eq, x, y, s), KeyEq(eq, y, z, s)} ::
          KeyEq(eq, x, y, s) && KeyEq(eq, y, z, s) ==> KeyEq(eq, x, z, s))
  }

  /** Two nodes hold the same key: equal key sizes, equal hashes, and keys
      the callback calls equal. */
  ghost predicate Clash<V>(x: HashNode<V>, y: HashNode<V>, eq: (int, int, int) --> int)
  {
    x.keySize == y.keySize && x.hash == y.hash && KeyEq(eq, x.key, y.key, x.keySize)
  }

  /** No two nodes on the chains hold the same key. */
  ghost predicate Unique<V>(nodes: seq<HashNode<V>>, owner: seq<Loc>, eq: (int, int, int) --> int)
    requires |owner| == |nodes|
  {
    forall a, b :: 0 <= a < |nodes| && 0 <= b < |nodes| && a != b && owner[a].InChain? && owner[b].InChain? ==>
      !Clash(nodes[a], nodes[b], eq)
  }

  /** Keys stay unique when nodes only leave the chains and the chain nodes
      keep their keys, key sizes and hashes. */
  lemma UniqueFrame<V>(nodes: seq<HashNode<V>>, owner: seq<Loc>, nodes': seq<HashNode<V>>, owner': seq<Loc>,
                       eq: (int, int, int) --> int)
    requires |owner| == |nodes| && Unique(nodes, owner, eq)
    requires |owner'| == |nodes'| == |nodes|
    requires forall m :: 0 <= m < |nodes| && owner'[m].InChain? ==>
      owner[m].InChain? && nodes'[m].key == nodes[m].key && nodes'[m].keySize == nodes[m].keySize && nodes'[m].hash == nodes[m].hash
    ensures Unique(nodes', owner', eq)
  {
    forall a, b | 0 <= a < |nodes'| && 0 <= b < |nodes'| && a != b && owner'[a].InChain? && owner'[b].InChain?
      ensures !Clash(nodes'[a], nodes'[b], eq)
    {
      assert !Clash(nodes[a], nodes[b], eq);
    }
  }

  /** Linking node `n`, whose key no chain node holds, keeps keys unique;
      the other chain nodes must be ones that were there before, unchanged. */
  lemma UniqueLink<V>(nodes: seq<HashNode<V>>, owner: seq<Loc>, nodes': seq<HashNode<V>>, owner': seq<Loc>,
                      eq: (int, int, int) --> int, n: nat)
    requires |owner| == |nodes| && Unique(nodes, owner, eq) && IsEquivalence(eq)
    requires |owner'| == |nodes'| >= |nodes| && n < |nodes'|
    requires forall m :: 0 <= m < |nodes'| && m != n && owner'[m].InChain? ==>
      m < |nodes| && owner[m].InChain? && nodes'[m] == nodes[m]
    requires forall m :: 0 <= m < |nodes| && m != n && owner[m].InChain? ==> !Clash(nodes'[n], nodes[m], eq)
    ensures Unique(nodes', owner', eq)
  {
    forall a, b | 0 <= a < |nodes'| && 0 <= b < |nodes'| && a != b && owner'[a].InChain? && owner'[b].InChain?
      ensures !Clash(nodes'[a], nodes'[b], eq)
    {
      if a == n {
        assert !Clash(nodes'[n], nodes[b], eq);
      } else if b == n {
        var x, y := nodes'[a], nodes'[n];
        assert !Clash(y, nodes[a], eq);
        assert KeyEq(eq, x.key, y.key, x.keySize) ==> KeyEq(eq, y.key, x.key, x.keySize);
      } else {
        assert !Clash(nodes[a], nodes[b], eq);
      }
    }
  }

  class HashMap<V> {
    var cells: seq<seq<nat>>
    var nodes: seq<HashNode<V>>
    var free: seq<nat>
    var cap: nat
    var nodeMax: int
    ghost var owner: seq<Loc>
    const hashFn: (int, int) --> nat
    const eqlFn: (int, int, int) --> int

    ghost predicate Valid()
      reads this
    {
      && |cells| == cap
      && nodeMax == |nodes|
      && Layout(cells, owner, nodes, free, 0, 0)
      && Unique(nodes, owner, eqlFn)
    }

    /** The nodes reachable from the cells. */
    ghost function Live(): set<nat>
      reads this
    {
      LiveOf(owner)
    }

    /** The zero-initialised map with the given hash and equality callbacks. */
    constructor (hashFn: (int, int) --> nat, eqlFn: (int, int, int) --> int)
      ensures Valid() && cap == 0 && nodes == [] && free == [] && Live() == {}
      ensures this.hashFn == hashFn && this.eqlFn == eqlFn
    {
      cells := [];
      nodes := [];
      free := [];
      cap := 0;
      nodeMax := 0;
      owner := [];
      this.hashFn := hashFn;
      this.eqlFn := eqlFn;
    }

    /** The equality callback may be asked about `key` against every node of
        the same key size. */
    ghost predicate EqlDefined(key: int, keySize: int)
      reads this
    {
      forall i :: 0 <= i < |nodes| && nodes[i].keySize == keySize ==> eqlFn.requires(key, nodes[i].key, keySize)
    }

    /** The test applied to each chain node by find, insert and remove. */
    ghost predicate Matches(i: nat, key: int, keySize: int, hash: nat)
      reads this
      requires i < |nodes| && EqlDefined(key, keySize)
    {
      nodes[i].keySize == keySize && nodes[i].hash == hash && eqlFn(key, nodes[i].key, keySize) == 0
    }

    /** Position of the first node of `chain` that matches. */
    ghost function FirstMatch(chain: seq<nat>, key: int, keySize: int, hash: nat): (p: nat)
      reads this
      requires forall i :: 0 <= i < |chain| ==> chain[i] < |nodes|
      requires EqlDefined(key, keySize)
      ensures p <= |chain|
      ensures forall j :: 0 <= j < p ==> !Matches(chain[j], key, keySize, hash)
      ensures p < |chain| ==> Matches(chain[p], key, keySize, hash)
      decreases |chain|
    {
      if chain == [] then 0
      else if Matches(chain[0], key, keySize, hash) then 0
      else 1 + FirstMatch(chain[1..], key, keySize, hash)
    }

    ghost predicate CanHash(key: int, keySize: int)
      reads this
    {
      cap != 0 ==> hashFn.requires(key, keySize)
    }

    /** The node hash_map_find answers for `key`, if any. */
    ghost function Lookup(key: int, keySize: int): Option<nat>
      reads this
      requires Valid() && CanHash(key, keySize) && EqlDefined(key, keySize)
    {
      if cap == 0 then None
      else
        var hash := hashFn(key, keySize);
        var chain := cells[hash % cap];
        var p := FirstMatch(chain, key, keySize, hash);
        if p < |chain| then Some(chain[p]) else None
    }

    /** Lookup is complete for the live nodes: it finds a matching live
        node exactly when one exists, because a node with that hash can only
        sit in cell `hash % cap`. */
    lemma LookupMeaning(key: int, keySize: int)
      requires Valid() && CanHash(key, keySize) && EqlDefined(key, keySize)
      ensures Lookup(key, keySize).Some? ==>
        && Lookup(key, keySize).value in Live()
        && Matches(Lookup(key, keySize).value, key, keySize, hashFn(key, keySize))
      ensures Lookup(key, keySize).None? <==>
        (cap == 0 || forall n :: n in Live() ==> !Matches(n, key, keySize, hashFn(key, keySize)))
    {
      if cap != 0 {
        var hash := hashFn(key, keySize);
        var c := hash % cap;
        var chain := cells[c];
        var p := FirstMatch(chain, key, keySize, hash);
        if p == |chain| {
          forall n | n in Live()
            ensures !Matches(n, key, keySize, hash)
          {
            var d := owner[n].cell;
            var k :| 0 <= k < |cells[d]| && cells[d][k] == n;
            if d == c {
              assert !Matches(chain[k], key, keySize, hash);
            } else {
              assert nodes[n].hash != hash;
            }
          }
        } else {
          assert chain[p] in Live();
        }
      }
    }

    /** hash_map_find. */
    method Find(key: int, keySize: int) returns (r: Option<nat>)
      requires Valid() && CanHash(key, keySize) && EqlDefined(key, keySize)
      ensures r == Lookup(key, keySize)
    {
      if cap == 0 {
        return None;
      }
      var hash := hashFn(key, keySize);
      var chain := cells[hash % cap];
      var p := ScanChain(chain, key, keySize, hash);
      r := if p < |chain| then Some(chain[p]) else None;
    }

    /** The chain walk shared by find, insert and remove: the first node of
        `chain` whose key size, hash and key (by the equality callback)
        match. */
    method ScanChain(chain: seq<nat>, key: int, keySize: int, hash: nat) returns (i: nat)
      requires forall i :: 0 <= i < |chain| ==> chain[i] < |nodes|
      requires EqlDefined(key, keySize)
      ensures i == FirstMatch(chain, key, keySize, hash)
    {
      ghost var p := FirstMatch(chain, key, keySize, hash);
      i := 0;
      while i < |chain|
        invariant 0 <= i <= |chain| && i <= p
        invariant forall j :: 0 <= j < i ==> !Matches(chain[j], key, keySize, hash)
      {
        var n := chain[i];
        if nodes[n].keySize == keySize && nodes[n].hash == hash && eqlFn(key, nodes[n].key, keySize) == 0 {
          assert Matches(chain[i], key, keySize, hash);
          return;
        }
        i := i + 1;
      }
    }

    /** hash_map_expand: the cells grow to `cap * 2 + 10` and every node is
        relinked to the head of cell `hash % new_cap` unless it is there
        already; nodes that stay keep their relative order. */
    method Expand()
      requires Valid()
      modifies this
      ensures Valid()
      ensures cap == old(cap) * 2 + 10
      ensures forall c, i :: 0 <= c < cap && 0 <= i < |cells[c]| ==> nodes[cells[c][i]].hash % cap == c
      ensures nodes == old(nodes) && free == old(free) && nodeMax == old(nodeMax)
      ensures Live() == old(Live())
    {
      var oldCap := cap;
      var newCap := cap * 2 + 10;
      ExtendCells(cells, owner, nodes, newCap - cap);
      cells := cells + seq(newCap - cap, _ => []);
      var cell := 0;
      while cell < oldCap
        invariant 0 <= cell <= oldCap && |cells| == newCap
        invariant Layout(cells, owner, nodes, free, oldCap, cell)
        invariant nodes == old(nodes) && free == old(free) && nodeMax == old(nodeMax) && cap == oldCap
        invariant |owner| == old(|owner|)
        invariant forall n :: 0 <= n < |owner| ==> (owner[n].InChain? <==> old(owner)[n].InChain?)
      {
        RelinkCell(oldCap, newCap, cell);
        cell := cell + 1;
      }
      cap := newCap;
      assert forall c, i :: 0 <= c < cap && 0 <= i < |cells[c]| ==> nodes[cells[c][i]].hash % cap == c;
    }

    /** The inner loop of hash_map_expand for one old cell. */
    method RelinkCell(oldCap: nat, newCap: nat, cell: nat)
      requires cell < oldCap <= newCap == |cells|
      requires Layout(cells, owner, nodes, free, oldCap, cell)
      modifies this
      ensures Layout(cells, owner, nodes, free, oldCap, cell + 1)
      ensures |cells| == newCap && nodes == old(nodes) && free == old(free)
      ensures nodeMax == old(nodeMax) && cap == old(cap) && |owner| == old(|owner|)
      ensures forall n :: 0 <= n < |owner| ==> (owner[n].InChain? <==> old(owner)[n].InChain?)
    {
      var chain := cells[cell];
      ghost var pool := nodes;
      var kept: seq<nat> := [];
      var j := 0;
      while j < |chain|
        invariant 0 <= j <= |chain| && |cells| == newCap
        invariant cells[cell] == kept + chain[j..]
        invariant forall k :: 0 <= k < |kept| ==> kept[k] < |pool| && pool[kept[k]].hash % newCap == cell
        invariant Layout(cells, owner, nodes, free, oldCap, cell)
        invariant nodes == old(nodes) && free == old(free) && nodeMax == old(nodeMax) && cap == old(cap)
        invariant |owner| == old(|owner|)
        invariant forall n :: 0 <= n < |owner| ==> (owner[n].InChain? <==> old(owner)[n].InChain?)
      {
        kept := RelinkStep(oldCap, newCap, cell, pool, kept, chain, j);
        j := j + 1;
      }
      FinishCell(cells, owner, nodes, oldCap, cell);
    }

    /** One node of the inner loop of hash_map_expand: the node at position
        `j` of the old chain either stays (and joins `kept`) or moves to the
        head of the cell the new modulus gives it. */
    method RelinkStep(oldCap: nat, newCap: nat, cell: nat, ghost pool: seq<HashNode<V>>, kept: seq<nat>, chain: seq<nat>, j: nat)
      returns (kept': seq<nat>)
      requires j < |chain| && cell < oldCap <= newCap == |cells| && pool == nodes
      requires cells[cell] == kept + chain[j..]
      requires forall k :: 0 <= k < |kept| ==> kept[k] < |pool| && pool[kept[k]].hash % newCap == cell
      requires Layout(cells, owner, nodes, free, oldCap, cell)
      modifies this
      ensures |cells| == newCap && cells[cell] == kept' + chain[j + 1..]
      ensures forall k :: 0 <= k < |kept'| ==> kept'[k] < |pool| && pool[kept'[k]].hash % newCap == cell
      ensures Layout(cells, owner, nodes, free, oldCap, cell)
      ensures nodes == old(nodes) && free == old(free) && nodeMax == old(nodeMax) && cap == old(cap)
      ensures |owner| == old(|owner|)
      ensures forall n :: 0 <= n < |owner| ==> (owner[n].InChain? <==> old(owner)[n].InChain?)
    {
      var n := chain[j];
      DropHead(kept, chain, j);
      var newCell := nodes[n].hash % newCap;
      if newCell != cell {
        MoveToHead(oldCap, cell, |kept|, newCell);
        kept' := kept;
      } else {
        KeepNode(kept, n, pool, newCap, cell);
        kept' := kept + [n];
      }
    }

    /** One relink of the inner loop of hash_map_expand: node `p` of cell
        `cell` goes first in cell `newCell`, where the new modulus puts it. */
    method MoveToHead(oldCap: nat, cell: nat, p: nat, newCell: nat)
      requires cell < oldCap <= |cells| && newCell < |cells| && newCell != cell && p < |cells[cell]|
      requires Layout(cells, owner, nodes, free, oldCap, cell)
      requires nodes[cells[cell][p]].hash % |cells| == newCell
      modifies this
      ensures cells == old(cells[cell := Without(cells[cell], p)][newCell := [cells[cell][p]] + cells[newCell]])
      ensures cells[cell] == Without(old(cells[cell]), p)
      ensures owner == old(owner[cells[cell][p] := InChain(newCell)])
      ensures Layout(cells, owner, nodes, free, oldCap, cell)
      ensures nodes == old(nodes) && free == old(free) && nodeMax == old(nodeMax) && cap == old(cap)
      ensures |owner| == old(|owner|) && forall n :: 0 <= n < |owner| ==> (owner[n].InChain? <==> old(owner)[n].InChain?)
    {
      var n := cells[cell][p];
      MoveNode(cells, owner, nodes, free, oldCap, cell, p, newCell);
      MoveOwned(cells, owner, cell, p, newCell);
      cells := cells[cell := Without(cells[cell], p)][newCell := [n] + cells[newCell]];
      owner := owner[n := InChain(newCell)];
    }

    /** No chain node holds `key`. */
    ghost predicate Absent(key: int, keySize: int, hash: nat)
      reads this
      requires |owner| == |nodes|
    {
      forall m :: 0 <= m < |nodes| && owner[m].InChain? ==>
        !(nodes[m].keySize == keySize && nodes[m].hash == hash && KeyEq(eqlFn, key, nodes[m].key, keySize))
    }

    /** A key lookup does not find is held by no chain node. */
    lemma AbsentOfLookup(key: int, keySize: int)
      requires Valid() && CanHash(key, keySize) && EqlDefined(key, keySize) && cap != 0
      requires Lookup(key, keySize).None?
      ensures Absent(key, keySize, hashFn(key, keySize))
    {
      LookupMeaning(key, keySize);
      forall m | 0 <= m < |nodes| && owner[m].InChain?
        ensures !(nodes[m].keySize == keySize && nodes[m].hash == hashFn(key, keySize) && KeyEq(eqlFn, key, nodes[m].key, keySize))
      {
        assert m in Live();
      }
    }

    /** hash_map_insert: returns the node of `key` if one is present;
        otherwise links a new node for it at the head of its cell, taken
        from the free-list or else freshly allocated (`node_max` grows). The
        map is first expanded when `node_max >= cap * 5`, so `cap != 0`
        afterwards. */
    method Insert(key: int, keySize: int) returns (n: nat)
      requires Valid() && hashFn.requires(key, keySize) && EqlDefined(key, keySize) && IsEquivalence(eqlFn)
      modifies this
      ensures Valid() && cap != 0
      ensures cap == if old(nodeMax) >= old(cap) * 5 then old(cap) * 2 + 10 else old(cap)
      ensures old(Lookup(key, keySize)).Some? ==>
        && nodes == old(nodes) && free == old(free) && nodeMax == old(nodeMax)
        && n in old(Live()) && Live() == old(Live()) && n < |nodes| && Matches(n, key, keySize, hashFn(key, keySize))
      ensures old(Lookup(key, keySize)).Some? && old(nodeMax) < old(cap) * 5 ==>
        n == old(Lookup(key, keySize)).value && cells == old(cells)
      ensures old(Lookup(key, keySize)).None? ==>
        && n !in old(Live()) && Live() == old(Live()) + {n}
        && n < |nodes| && nodes[n].key == key && nodes[n].keySize == keySize && nodes[n].hash == hashFn(key, keySize)
        && cells[hashFn(key, keySize) % cap][0] == n
      ensures old(Lookup(key, keySize)).None? && old(free) != [] ==>
        && n == old(free)[0] && free == old(free)[1..] && nodeMax == old(nodeMax)
        && nodes == old(nodes)[n := old(nodes)[n].(key := key, keySize := keySize, hash := hashFn(key, keySize))]
      ensures old(Lookup(key, keySize)).None? && old(free) == [] ==>
        && n == old(|nodes|) && free == [] && nodeMax == old(nodeMax) + 1
        && nodes == old(nodes) + [HashNode(key, keySize, None, hashFn(key, keySize))]
    {
      LookupMeaning(key, keySize);
      if nodeMax >= cap * 5 {
        Expand();
        LookupMeaning(key, keySize);
      }
      assert cap != 0;
      assert Lookup(key, keySize).Some? <==> old(Lookup(key, keySize)).Some?;
      n := Place(key, keySize);
    }

    /** Lines 59-79 of hash_map_insert, once the map has cells: the node
        the lookup finds is returned with nothing changed; otherwise a node
        is allocated for the key at the head of its cell. */
    method Place(key: int, keySize: int) returns (n: nat)
      requires Valid() && cap != 0 && hashFn.requires(key, keySize) && EqlDefined(key, keySize) && IsEquivalence(eqlFn)
      modifies this
      ensures Valid() && cap == old(cap)
      ensures old(Lookup(key, keySize)).Some? ==> unchanged(this) && n == old(Lookup(key, keySize)).value
      ensures old(Lookup(key, keySize)).None? ==>
        && n !in old(Live()) && Live() == old(Live()) + {n}
        && n < |nodes| && nodes[n].key == key && nodes[n].keySize == keySize && nodes[n].hash == hashFn(key, keySize)
        && cells[hashFn(key, keySize) % cap][0] == n
      ensures old(Lookup(key, keySize)).None? && old(free) != [] ==>
        && n == old(free)[0] && free == old(free)[1..] && nodeMax == old(nodeMax)
        && nodes == old(nodes)[n := old(nodes)[n].(key := key, keySize := keySize, hash := hashFn(key, keySize))]
      ensures old(Lookup(key, keySize)).None? && old(free) == [] ==>
        && n == old(|nodes|) && free == [] && nodeMax == old(nodeMax) + 1
        && nodes == old(nodes) + [HashNode(key, keySize, None, hashFn(key, keySize))]
    {
      var hash := hashFn(key, keySize);
      var c := hash % cap;
      var chain := cells[c];
      var p := ScanChain(chain, key, keySize, hash);
      if p < |chain| {
        return chain[p];
      }
      AbsentOfLookup(key, keySize);
      n := Allocate(key, keySize, hash, c);
    }

    /** Lines 65-79 of hash_map_insert: take a node and link it first in
        cell `c`. */
    method Allocate(key: int, keySize: int, hash: nat, c: nat) returns (n: nat)
      requires Valid() && c < cap && hash % cap == c
      requires IsEquivalence(eqlFn) && Absent(key, keySize, hash)
      modifies this
      ensures Valid()
      ensures cap == old(cap) && n !in old(Live()) && Live() == old(Live()) + {n}
      ensures cells == old(cells)[c := [n] + old(cells)[c]]
      ensures old(free) != [] ==>
        && n == old(free)[0] && free == old(free)[1..] && nodeMax == old(nodeMax)
        && nodes == old(nodes)[n := old(nodes)[n].(key := key, keySize := keySize, hash := hash)]
      ensures old(free) == [] ==>
        && n == old(|nodes|) && free == [] && nodeMax == old(nodeMax) + 1
        && nodes == old(nodes) + [HashNode(key, keySize, None, hash)]
    {
      if free != [] {
        n := free[0];
        NotOnAnyChain(cells, owner, nodes, n);
        TailDistinct(free);
        var nodes' := nodes[n := nodes[n].(key := key, keySize := keySize, hash := hash)];
        PlacedFrame(cells, owner, nodes, owner, nodes', 0, 0);
        free := free[1..];
        nodes := nodes';
      } else {
        n := |nodes|;
        var nodes' := nodes + [HashNode(key, keySize, None, hash)];
        PlacedFrame(cells, owner, nodes, owner + [InFree], nodes', 0, 0);
        nodes := nodes';
        owner := owner + [InFree];
        nodeMax := nodeMax + 1;
      }
      LinkFirst(cells, owner, nodes, free, c, n);
      cells := cells[c := [n] + cells[c]];
      owner := owner[n := InChain(c)];
      UniqueLink(old(nodes), old(owner), nodes, owner, eqlFn, n);
    }

    /** hash_map_remove, with the removed node pushed onto the free-list as
        evidently intended (`h->free = n` at line 109). It unlinks the first matching node
        of the key's chain, leaves the other chain members in place and
        returns it; a missing key or an empty map gives None and changes
        nothing. */
    method Remove(key: int, keySize: int) returns (r: Option<nat>)
      requires Valid() && CanHash(key, keySize) && EqlDefined(key, keySize) && IsEquivalence(eqlFn)
      modifies this
      ensures Valid()
      ensures r == old(Lookup(key, keySize))
      ensures r.None? ==> cells == old(cells) && free == old(free) && Live() == old(Live())
      ensures nodes == old(nodes) && cap == old(cap) && nodeMax == old(nodeMax)
      ensures Lookup(key, keySize).None?
      ensures r.Some? ==>
        && cap != 0
        && var c := hashFn(key, keySize) % cap;
        && var p := old(FirstMatch(cells[c], key, keySize, hashFn(key, keySize)));
        && p < |old(cells)[c]|
        && cells == old(cells)[c := Without(old(cells)[c], p)]
        && free == [r.value] + old(free)
        && Live() == old(Live()) - {r.value}
    {
      if cap == 0 {
        return None;
      }
      var hash := hashFn(key, keySize);
      var c := hash % cap;
      var chain := cells[c];
      var i := ScanChain(chain, key, keySize, hash);
      if i == |chain| {
        return None;
      }
      OnlyMatch(key, keySize, chain[i]);
      var n := UnlinkAt(c, i);
      r := Some(n);
      forall m | m in Live()
        ensures !Matches(m, key, keySize, hash)
      {
        assert m != n && m < |nodes| && old(owner[m]).InChain?;
      }
      LookupMeaning(key, keySize);
    }

    /** Every chain node other than `r`, a node that holds `key`, holds
        another key. */
    lemma OnlyMatch(key: int, keySize: int, r: nat)
      requires Valid() && EqlDefined(key, keySize) && IsEquivalence(eqlFn) && cap != 0 && hashFn.requires(key, keySize)
      requires r < |nodes| && owner[r].InChain? && Matches(r, key, keySize, hashFn(key, keySize))
      ensures forall m :: 0 <= m < |nodes| && m != r && owner[m].InChain? ==> !Matches(m, key, keySize, hashFn(key, keySize))
    {
      var x := nodes[r];
      assert KeyEq(eqlFn, key, x.key, keySize);
      assert KeyEq(eqlFn, x.key, key, keySize);
      forall m | 0 <= m < |nodes| && m != r && owner[m].InChain?
        ensures !Matches(m, key, keySize, hashFn(key, keySize))
      {
        assert !Clash(x, nodes[m], eqlFn);
        assert KeyEq(eqlFn, key, nodes[m].key, keySize) ==> KeyEq(eqlFn, x.key, nodes[m].key, keySize);
      }
    }

    /** Lines 97-110 of hash_map_remove: position `p` of chain `c` is
        unlinked and its node pushed onto the free-list. */
    method UnlinkAt(c: nat, p: nat) returns (n: nat)
      requires Valid() && c < |cells| && p < |cells[c]|
      modifies this
      ensures Valid()
      ensures n == old(cells[c][p]) && cells == old(cells[c := Without(cells[c], p)])
      ensures free == [n] + old(free) && Live() == old(Live()) - {n}
      ensures nodes == old(nodes) && cap == old(cap) && nodeMax == old(nodeMax)
    {
      n := cells[c][p];
      Unlink(cells, owner, nodes, free, c, p);
      UnlinkOwned(cells, owner, c, p);
      LiveSet(owner, n, InFree);
      cells := cells[c := Without(cells[c], p)];
      owner := owner[n := InFree];
      free := [n] + free;
    }

    /** Lines 97-110 of hash_map_remove as written: the node at position `p`
        of chain `c` is unlinked, but the free head is left as it was
        (`n->next = h->free; h->free = n->next;` at lines 108-109). The node is then on no chain and not on the
        free-list, so no later insert can hand it out again: it is lost. */
    method UnlinkAtAsWritten(c: nat, p: nat) returns (n: nat)
      requires Valid() && c < |cells| && p < |cells[c]|
      modifies this
      ensures Valid()
      ensures n == old(cells[c][p]) && cells == old(cells[c := Without(cells[c], p)])
      ensures free == old(free) && nodes == old(nodes) && Live() == old(Live()) - {n}
      ensures n < |nodes| && n !in Live() && n !in free
      ensures forall d, i :: 0 <= d < |cells| && 0 <= i < |cells[d]| ==> cells[d][i] != n
    {
      n := cells[c][p];
      Unlink(cells, owner, nodes, free, c, p);
      UnlinkOwned(cells, owner, c, p);
      LiveSet(owner, n, InFree);
      cells := cells[c := Without(cells[c], p)];
      owner := owner[n := InFree];
      assert forall i :: 0 <= i < |free| ==> free[i] == ([n] + free)[i + 1];
    }

    /** A pointer write `hash_node->val = v` on a node of the pool. */
    method SetVal(n: nat, v: V)
      requires Valid() && n < |nodes|
      modifies this
      ensures Valid()
      ensures nodes == old(nodes)[n := old(nodes)[n].(val := Some(v))]
      ensures cells == old(cells) && free == old(free) && cap == old(cap) && owner == old(owner)
    {
      nodes := nodes[n := nodes[n].(val := Some(v))];
    }
  }

  /** List `s` with position `p` dropped. */
  function Without(s: seq<nat>, p: nat): (r: seq<nat>)
    requires p < |s|
    ensures |r| == |s| - 1
    ensures forall i :: 0 <= i < |r| ==> r[i] == if i < p then s[i] else s[i + 1]
  {
    s[..p] + s[p + 1..]
  }

  lemma WithoutDistinct(s: seq<nat>, p: nat)
    requires p < |s| && Distinct(s)
    ensures Distinct(Without(s, p))
    ensures forall i :: 0 <= i < |Without(s, p)| ==> Without(s, p)[i] != s[p]
    ensures forall m :: m in s && m != s[p] ==> m in Without(s, p)
  {
    var r := Without(s, p);
    forall a, b | 0 <= a < b < |r|
      ensures r[a] != r[b]
    {
      var a' := if a < p then a else a + 1;
      var b' := if b < p then b else b + 1;
      assert r[a] == s[a'] && r[b] == s[b'];
    }
    forall i | 0 <= i < |r|
      ensures r[i] != s[p]
    {
      var i' := if i < p then i else i + 1;
      assert r[i] == s[i'];
    }
    forall m | m in s && m != s[p]
      ensures m in r
    {
      var k :| 0 <= k < |s| && s[k] == m;
      if k < p {
        assert r[k] == m;
      } else {
        assert r[k - 1] == m;
      }
    }
  }

  lemma PrependDistinct(s: seq<nat>, n: nat)
    requires Distinct(s) && forall i :: 0 <= i < |s| ==> s[i] != n
    ensures Distinct([n] + s)
  {
    forall a, b | 0 <= a < b < |[n] + s|
      ensures ([n] + s)[a] != ([n] + s)[b]
    {
      if a > 0 {
        assert ([n] + s)[a] == s[a - 1];
      }
      assert ([n] + s)[b] == s[b - 1];
    }
  }

  lemma TailDistinct(s: seq<nat>)
    requires Distinct(s) && s != []
    ensures Distinct(s[1..]) && forall i :: 0 <= i < |s[1..]| ==> s[1..][i] != s[0]
  {
    forall a, b | 0 <= a < b < |s[1..]|
      ensures s[1..][a] != s[1..][b]
    {
      assert s[1..][a] == s[a + 1] && s[1..][b] == s[b + 1];
    }
    forall i | 0 <= i < |s[1..]|
      ensures s[1..][i] != s[0]
    {
      assert s[1..][i] == s[i + 1];
    }
  }

  /** Placement depends only on the owner and node records of chain
      members. */
  lemma PlacedFrame<V>(cells: seq<seq<nat>>, owner: seq<Loc>, nodes: seq<HashNode<V>>,
                       owner': seq<Loc>, nodes': seq<HashNode<V>>, oldCap: nat, done: nat)
    requires Placed(cells, owner, nodes, oldCap, done)
    requires |owner'| == |nodes'| >= |nodes|
    requires forall c, i :: 0 <= c < |cells| && 0 <= i < |cells[c]| ==>
      owner'[cells[c][i]] == owner[cells[c][i]] && nodes'[cells[c][i]] == nodes[cells[c][i]]
    ensures Placed(cells, owner', nodes', oldCap, done)
  {
  }

  /** Replacing chain `c` by nodes that are all owned by it and placed there
      keeps the placement. */
  lemma PlacedSet<V>(cells: seq<seq<nat>>, owner: seq<Loc>, nodes: seq<HashNode<V>>, oldCap: nat, done: nat,
                     c: nat, chain: seq<nat>)
    requires Placed(cells, owner, nodes, oldCap, done) && c < |cells|
    requires forall i :: 0 <= i < |chain| ==>
      && chain[i] < |nodes| && owner[chain[i]] == InChain(c)
      && (nodes[chain[i]].hash % |cells| == c || (done <= c < oldCap && nodes[chain[i]].hash % oldCap == c))
    ensures Placed(cells[c := chain], owner, nodes, oldCap, done)
  {
    var cells' := cells[c := chain];
    forall d, i | 0 <= d < |cells'| && 0 <= i < |cells'[d]|
      ensures cells'[d][i] < |nodes| && owner[cells'[d][i]] == InChain(d)
      ensures nodes[cells'[d][i]].hash % |cells'| == d || (done <= d < oldCap && nodes[cells'[d][i]].hash % oldCap == d)
    {
      if d != c {
        assert cells'[d][i] == cells[d][i];
      }
    }
  }

  lemma ExtendCells<V>(cells: seq<seq<nat>>, owner: seq<Loc>, nodes: seq<HashNode<V>>, extra: nat)
    requires Placed(cells, owner, nodes, 0, 0) && ChainsDistinct(cells) && Owned(cells, owner)
    ensures Placed(cells + seq(extra, _ => []), owner, nodes, |cells|, 0)
    ensures ChainsDistinct(cells + seq(extra, _ => [])) && Owned(cells + seq(extra, _ => []), owner)
  {
    var cells' := cells + seq(extra, _ => []);
    forall c | 0 <= c < |cells'|
      ensures cells'[c] == if c < |cells| then cells[c] else []
    {
    }
  }

  /** Dropping position `p` of chain `cell` keeps the placement. */
  lemma RemovedPlaced<V>(cells: seq<seq<nat>>, owner: seq<Loc>, nodes: seq<HashNode<V>>, oldCap: nat, done: nat,
                         cell: nat, p: nat)
    requires cell < |cells| && p < |cells[cell]| && Placed(cells, owner, nodes, oldCap, done)
    ensures Placed(cells[cell := Without(cells[cell], p)], owner, nodes, oldCap, done)
  {
    var s := Without(cells[cell], p);
    forall i | 0 <= i < |s|
      ensures s[i] < |nodes| && owner[s[i]] == InChain(cell)
      ensures nodes[s[i]].hash % |cells| == cell || (done <= cell < oldCap && nodes[s[i]].hash % oldCap == cell)
    {
      var i' := if i < p then i else i + 1;
      assert s[i] == cells[cell][i'];
    }
    PlacedSet(cells, owner, nodes, oldCap, done, cell, s);
  }

  /** A node owned by chain `cell` is on no other chain. */
  lemma OnlyOwnChain<V>(cells: seq<seq<nat>>, owner: seq<Loc>, nodes: seq<HashNode<V>>, oldCap: nat, done: nat,
                        cell: nat, n: nat)
    requires Placed(cells, owner, nodes, oldCap, done) && n < |owner| && owner[n] == InChain(cell)
    ensures forall d, i :: 0 <= d < |cells| && d != cell && 0 <= i < |cells[d]| ==> cells[d][i] != n
  {
  }

  /** Linking a pool node that is on no chain first in chain `c`, where the
      current modulus places it, keeps the placement. */
  lemma PrependPlaced<V>(cells: seq<seq<nat>>, owner: seq<Loc>, nodes: seq<HashNode<V>>, oldCap: nat, done: nat,
                         c: nat, n: nat)
    requires Placed(cells, owner, nodes, oldCap, done) && c < |cells| && n < |nodes|
    requires forall d, i :: 0 <= d < |cells| && 0 <= i < |cells[d]| ==> cells[d][i] != n
    requires nodes[n].hash % |cells| == c
    ensures Placed(cells[c := [n] + cells[c]], owner[n := InChain(c)], nodes, oldCap, done)
  {
    var owner' := owner[n := InChain(c)];
    PlacedFrame(cells, owner, nodes, owner', nodes, oldCap, done);
    var chain := [n] + cells[c];
    forall i | 0 <= i < |chain|
      ensures chain[i] < |nodes| && owner'[chain[i]] == InChain(c)
      ensures nodes[chain[i]].hash % |cells| == c || (done <= c < oldCap && nodes[chain[i]].hash % oldCap == c)
    {
      if i > 0 {
        assert chain[i] == cells[c][i - 1];
      }
    }
    PlacedSet(cells, owner', nodes, oldCap, done, c, chain);
  }

  /** Taking node `p` out of cell `cell` and linking it first in cell
      `newCell`, where the new modulus places it, keeps the rehash
      invariant. */
  lemma MoveNode<V>(cells: seq<seq<nat>>, owner: seq<Loc>, nodes: seq<HashNode<V>>, free: seq<nat>, oldCap: nat,
                    cell: nat, p: nat, newCell: nat)
    requires cell < oldCap <= |cells| && newCell < |cells| && newCell != cell && p < |cells[cell]|
    requires Placed(cells, owner, nodes, oldCap, cell) && ChainsDistinct(cells)
    requires FreeOk(free, owner)
    requires nodes[cells[cell][p]].hash % |cells| == newCell
    ensures
      var n := cells[cell][p];
      var cells' := cells[cell := Without(cells[cell], p)][newCell := [n] + cells[newCell]];
      var owner' := owner[n := InChain(newCell)];
      && Placed(cells', owner', nodes, oldCap, cell) && ChainsDistinct(cells') && FreeOk(free, owner')
  {
    var n := cells[cell][p];
    var c1 := cells[cell := Without(cells[cell], p)];
    assert owner[n] == InChain(cell);
    WithoutDistinct(cells[cell], p);
    RemovedPlaced(cells, owner, nodes, oldCap, cell, cell, p);
    OnlyOwnChain(c1, owner, nodes, oldCap, cell, cell, n);
    PrependPlaced(c1, owner, nodes, oldCap, cell, newCell, n);
    MoveDistinct(c1, newCell, n);
    MarkFreeOk(free, owner, n, InChain(newCell));
  }

  /** Prepending a node that is on no chain to chain `c` keeps chains
      duplicate-free. */
  lemma MoveDistinct(cells: seq<seq<nat>>, c: nat, n: nat)
    requires ChainsDistinct(cells) && c < |cells|
    requires forall i :: 0 <= i < |cells[c]| ==> cells[c][i] != n
    ensures ChainsDistinct(cells[c := [n] + cells[c]])
  {
    PrependDistinct(cells[c], n);
  }

  /** Re-owning a node that is not on the free-list keeps the free-list
      sound. */
  lemma MarkFreeOk(free: seq<nat>, owner: seq<Loc>, n: nat, loc: Loc)
    requires FreeOk(free, owner) && n < |owner| && owner[n].InChain?
    ensures FreeOk(free, owner[n := loc])
  {
    forall i | 0 <= i < |free|
      ensures free[i] != n
    {
      assert owner[free[i]] == InFree;
    }
  }

  lemma KeepNode<V>(kept: seq<nat>, n: nat, nodes: seq<HashNode<V>>, newCap: nat, cell: nat)
    requires newCap > 0 && forall k :: 0 <= k < |kept| ==> kept[k] < |nodes| && nodes[kept[k]].hash % newCap == cell
    requires n < |nodes| && nodes[n].hash % newCap == cell
    ensures forall k :: 0 <= k < |kept + [n]| ==> (kept + [n])[k] < |nodes| && nodes[(kept + [n])[k]].hash % newCap == cell
  {
  }

  lemma DropHead(kept: seq<nat>, chain: seq<nat>, j: nat)
    requires j < |chain|
    ensures |kept + chain[j..]| > |kept| && (kept + chain[j..])[|kept|] == chain[j]
    ensures Without(kept + chain[j..], |kept|) == kept + chain[j + 1..]
    ensures (kept + [chain[j]]) + chain[j + 1..] == kept + chain[j..]
  {
    assert chain[j..] == [chain[j]] + chain[j + 1..];
  }

  lemma MoveOwned(cells: seq<seq<nat>>, owner: seq<Loc>, cell: nat, p: nat, newCell: nat)
    requires cell < |cells| && newCell < |cells| && newCell != cell && p < |cells[cell]|
    requires Owned(cells, owner) && Distinct(cells[cell]) && cells[cell][p] < |owner|
    ensures
      var n := cells[cell][p];
      Owned(cells[cell := Without(cells[cell], p)][newCell := [n] + cells[newCell]], owner[n := InChain(newCell)])
  {
    var n := cells[cell][p];
    var cells' := cells[cell := Without(cells[cell], p)][newCell := [n] + cells[newCell]];
    var owner' := owner[n := InChain(newCell)];
    WithoutDistinct(cells[cell], p);
    forall m | 0 <= m < |owner'| && owner'[m].InChain?
      ensures owner'[m].cell < |cells'| && m in cells'[owner'[m].cell]
    {
      if m != n {
        var d := owner[m].cell;
        var k :| 0 <= k < |cells[d]| && cells[d][k] == m;
        if d == newCell {
          assert cells'[newCell][k + 1] == m;
        }
      } else {
        assert cells'[newCell][0] == n;
      }
    }
  }

  /** Once every node left in cell `cell` belongs there under the new
      modulus, the cell counts as done. */
  lemma FinishCell<V>(cells: seq<seq<nat>>, owner: seq<Loc>, nodes: seq<HashNode<V>>, oldCap: nat, cell: nat)
    requires Placed(cells, owner, nodes, oldCap, cell) && cell < |cells|
    requires forall k :: 0 <= k < |cells[cell]| ==> nodes[cells[cell][k]].hash % |cells| == cell
    ensures Placed(cells, owner, nodes, oldCap, cell + 1)
  {
  }

  /** A node owned by no chain is on no chain. */
  lemma NotOnAnyChain<V>(cells: seq<seq<nat>>, owner: seq<Loc>, nodes: seq<HashNode<V>>, n: nat)
    requires Placed(cells, owner, nodes, 0, 0) && n < |owner| && owner[n] == InFree
    ensures forall c, i :: 0 <= c < |cells| && 0 <= i < |cells[c]| ==> cells[c][i] != n
  {
  }

  /** Linking a node that is on no chain first in cell `c` keeps the map
      well formed. */
  lemma LinkFirst<V>(cells: seq<seq<nat>>, owner: seq<Loc>, nodes: seq<HashNode<V>>, free: seq<nat>, c: nat, n: nat)
    requires c < |cells| && n < |nodes| && nodes[n].hash % |cells| == c
    requires Placed(cells, owner, nodes, 0, 0) && ChainsDistinct(cells) && Owned(cells, owner)
    requires FreeOk(free, owner) && owner[n] == InFree
    requires forall i :: 0 <= i < |free| ==> free[i] != n
    ensures
      var cells' := cells[c := [n] + cells[c]];
      var owner' := owner[n := InChain(c)];
      && Placed(cells', owner', nodes, 0, 0) && ChainsDistinct(cells') && Owned(cells', owner')
      && FreeOk(free, owner')
  {
    var cells' := cells[c := [n] + cells[c]];
    var owner' := owner[n := InChain(c)];
    NotOnAnyChain(cells, owner, nodes, n);
    PlacedFrame(cells, owner, nodes, owner', nodes, 0, 0);
    PlacedSet(cells, owner', nodes, 0, 0, c, [n] + cells[c]);
    PrependDistinct(cells[c], n);
    forall m | 0 <= m < |owner'| && owner'[m].InChain?
      ensures owner'[m].cell < |cells'| && m in cells'[owner'[m].cell]
    {
      if m != n && owner[m].cell == c {
        var k :| 0 <= k < |cells[c]| && cells[c][k] == m;
        assert cells'[c][k + 1] == m;
      } else if m == n {
        assert cells'[c][0] == n;
      }
    }
  }

  /** Unlinking position `p` of chain `c` and pushing the node onto the
      free-list keeps the map well formed. */
  lemma Unlink<V>(cells: seq<seq<nat>>, owner: seq<Loc>, nodes: seq<HashNode<V>>, free: seq<nat>, c: nat, p: nat)
    requires c < |cells| && p < |cells[c]|
    requires Placed(cells, owner, nodes, 0, 0) && ChainsDistinct(cells) && Owned(cells, owner) && FreeOk(free, owner)
    ensures
      var n := cells[c][p];
      var cells' := cells[c := Without(cells[c], p)];
      var owner' := owner[n := InFree];
      && Placed(cells', owner', nodes, 0, 0) && ChainsDistinct(cells')
      && FreeOk([n] + free, owner')
  {
    var n := cells[c][p];
    var s := Without(cells[c], p);
    var owner' := owner[n := InFree];
    WithoutDistinct(cells[c], p);
    forall i | 0 <= i < |s|
      ensures s[i] < |nodes| && owner[s[i]] == InChain(c) && nodes[s[i]].hash % |cells| == c
    {
      var i' := if i < p then i else i + 1;
      assert s[i] == cells[c][i'];
    }
    PlacedSet(cells, owner, nodes, 0, 0, c, s);
    var c1 := cells[c := s];
    forall d, i | 0 <= d < |c1| && 0 <= i < |c1[d]|
      ensures c1[d][i] != n
    {
      if d != c {
        assert owner[c1[d][i]] == InChain(d);
      }
    }
    PlacedFrame(c1, owner, nodes, owner', nodes, 0, 0);
    forall i | 0 <= i < |free|
      ensures free[i] != n
    {
      assert owner[free[i]] == InFree;
    }
    PrependDistinct(free, n);
  }

  lemma UnlinkOwned(cells: seq<seq<nat>>, owner: seq<Loc>, c: nat, p: nat)
    requires c < |cells| && p < |cells[c]|
    requires Owned(cells, owner) && Distinct(cells[c]) && cells[c][p] < |owner|
    ensures Owned(cells[c := Without(cells[c], p)], owner[cells[c][p] := InFree])
  {
    var n := cells[c][p];
    var cells' := cells[c := Without(cells[c], p)];
    var owner' := owner[n := InFree];
    WithoutDistinct(cells[c], p);
    forall m | 0 <= m < |owner'| && owner'[m].InChain?
      ensures owner'[m].cell < |cells'| && m in cells'[owner'[m].cell]
    {
    }
  }
}
