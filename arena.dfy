/** The bump arena of src/arena.c. Arenas are linked through `next`; the
    model holds the arena allocation starts at and its successors as a
    sequence, in `next` order, and `arena_alloc` walks it by index. */
module ArenaAlloc {

  /** The capacity arena_init gives the first arena. */
  const INITIAL_CAP: int := 64

  /** A chain of arenas: the first is the one arena_init made, each
      later one is the `next` of the one before, and the last has no
      `next`. */
  class Chain {
    var arenas: seq<Seg>

    ghost predicate Valid()
      reads this
    {
      |arenas| >= 1 && SegsValid(arenas)
    }

    /** arena_init (src/arena.c:6-13): one empty arena of capacity 64, with
        a 64-byte buffer and no successor. */
    constructor Init()
      ensures Valid() && arenas == [Seg(0, INITIAL_CAP, INITIAL_CAP)]
    {
      arenas := [Seg(0, INITIAL_CAP, INITIAL_CAP)];
    }

    /** arena_alloc (src/arena.c:25-46) from arena `from`, with the buffer
        of a new arena sized as intended: the first arena from `from` on
        that the request fits in strictly takes it at its fill, which grows
        by the request; when none does, arenas of doubling capacity are
        linked at the tail until one fits. Returns the arena and the offset
        in its buffer. */
    method Alloc(from: nat, elemCnt: int, elemSize: int) returns (idx: nat, offset: int)
      requires Valid() && from < |arenas|
      requires 0 <= elemCnt && 0 <= elemSize
      modifies this
      ensures Valid()
      ensures var p := Outcome(old(arenas), from, elemCnt * elemSize);
        arenas == p.segs && idx == p.idx && offset == p.offset
      ensures from <= idx < |arenas| && 0 <= offset && offset + elemCnt * elemSize <= arenas[idx].buf
    {
      var size := elemCnt * elemSize;
      ghost var start := arenas;
      ghost var goal := Walk(arenas, from, size);
      var k := from;
      while true
        invariant Valid() && from <= k < |arenas| && Walk(arenas, k, size) == goal
        decreases |arenas| - k, size + arenas[k].len - arenas[k].cap
      {
        var a := arenas[k];
        if a.len + size < a.cap {
          arenas := arenas[k := a.(len := a.len + size)];
          idx, offset := k, a.len;
          WalkIsOutcome(start, from, size);
          OutcomeMeaning(start, from, size);
          return;
        } else if k + 1 < |arenas| {
          k := k + 1;
        } else {
          arenas := arenas + [Seg(0, a.cap * 2, a.cap * 2)];
          k := k + 1;
        }
      }
    }
  }

  /** What allocation looks at in one arena: its fill, its capacity and the
      size of its buffer. */
  datatype Seg = Seg(len: int, cap: int, buf: int)

  /** Every arena's fill is below its capacity, and its buffer holds its
      capacity. */
  ghost predicate SegsValid(segs: seq<Seg>)
  {
    forall i :: 0 <= i < |segs| ==> 0 <= segs[i].len < segs[i].cap == segs[i].buf
  }

  /** arena_alloc's fit test: strictly below capacity. */
  predicate Fits(s: Seg, size: int)
  {
    s.len + size < s.cap
  }

  /** The first arena from index `k` on that the request fits in, or
      `|segs|` when none does. */
  function FirstFit(segs: seq<Seg>, size: int, k: nat): (r: nat)
    requires k <= |segs|
    ensures k <= r <= |segs|
    ensures r < |segs| ==> Fits(segs[r], size)
    ensures forall j :: k <= j < r ==> !Fits(segs[j], size)
    decreases |segs| - k
  {
    if k == |segs| then |segs|
    else if Fits(segs[k], size) then k
    else FirstFit(segs, size, k + 1)
  }

  /** The arena linked after a tail of capacity `cap`, as intended: its
      buffer is as large as its capacity. */
  function Grown(cap: int): (s: Seg)
    ensures s.len == 0 && s.cap == 2 * cap && s.buf == s.cap
  {
    Seg(0, 2 * cap, 2 * cap)
  }

  /** The same arena as src/arena.c:38-39 builds it: capacity doubled,
      buffer not. */
  function GrownAsWritten(cap: int): (s: Seg)
    ensures s.len == 0 && s.cap == 2 * cap && s.buf == cap
  {
    Seg(0, 2 * cap, cap)
  }

  /** The arenas linked after a tail of capacity `cap` that no request of
      `size` fits: capacities double until one fits, and that last one
      holds the allocation. */
  function Tail(cap: int, size: int): (t: seq<Seg>)
    requires 0 < cap && 0 <= size
    ensures |t| >= 1 && t[0].cap == 2 * cap
    ensures forall i :: 0 <= i < |t| ==> 0 < t[i].cap == t[i].buf
    ensures forall i :: 0 <= i < |t| - 1 ==> t[i].len == 0 && !Fits(t[i], size) && t[i + 1].cap == 2 * t[i].cap
    ensures t[|t| - 1].len == size < t[|t| - 1].cap
    decreases size - cap
  {
    if Fits(Grown(cap), size) then [Grown(cap).(len := size)]
    else [Grown(cap)] + Tail(2 * cap, size)
  }

  /** Where a request lands and the arenas afterwards. */
  datatype Placement = Placement(segs: seq<Seg>, idx: nat, offset: int)

  /** arena_alloc from arena `k` on: the first arena there that fits takes
      the request at its fill, which grows by `size`; when none fits, new
      arenas are linked at the tail and the last of them takes it at 0. */
  function Outcome(segs: seq<Seg>, k: nat, size: int): (p: Placement)
    requires k < |segs| && SegsValid(segs) && 0 <= size
  {
    var i := FirstFit(segs, size, k);
    if i < |segs| then Placement(segs[i := segs[i].(len := segs[i].len + size)], i, segs[i].len)
    else Placement(segs + Tail(segs[|segs| - 1].cap, size), |segs| + |Tail(segs[|segs| - 1].cap, size)| - 1, 0)
  }

  /** An allocation lands in the first arena from `k` on that fits, or in
      a new tail arena when none does; only that arena's fill changes and
      only new arenas are added; the chain stays valid, and the stretch
      handed out lies within the chosen arena's buffer. */
  lemma OutcomeMeaning(segs: seq<Seg>, k: nat, size: int)
    requires k < |segs| && SegsValid(segs) && 0 <= size
    ensures var p := Outcome(segs, k, size);
      && SegsValid(p.segs)
      && |p.segs| >= |segs| && p.idx < |p.segs|
      && (p.idx < |segs| <==> exists j :: k <= j < |segs| && Fits(segs[j], size))
      && (forall j :: k <= j < p.idx && j < |segs| ==> !Fits(segs[j], size))
      && (p.idx < |segs| ==> k <= p.idx && Fits(segs[p.idx], size) && p.offset == segs[p.idx].len && |p.segs| == |segs|)
      && (forall j :: 0 <= j < |segs| && j != p.idx ==> p.segs[j] == segs[j])
      && p.segs[p.idx].len == p.offset + size
      && 0 <= p.offset && p.offset + size <= p.segs[p.idx].buf
  {
    var i := FirstFit(segs, size, k);
    if i == |segs| {
      var t := Tail(segs[|segs| - 1].cap, size);
      assert SegsValid(t);
      assert SegsValid(segs + t);
    }
  }

  /** The fit test is strict: a request that would exactly fill an arena
      goes elsewhere. */
  lemma ExactFillMovesOn(segs: seq<Seg>, size: int)
    requires |segs| >= 1 && SegsValid(segs) && 0 <= size
    requires segs[0].len + size == segs[0].cap
    ensures Outcome(segs, 0, size).idx != 0
  {
  }

  /** With the buffer sized as written, one request of 100 bytes on a
      fresh arena lands at offset 0 of a new arena whose capacity is 128
      but whose buffer holds only 64 bytes. */
  lemma OverrunAsWritten()
    ensures !Fits(Seg(0, INITIAL_CAP, INITIAL_CAP), 100)
    ensures Fits(GrownAsWritten(INITIAL_CAP), 100) && 0 + 100 > GrownAsWritten(INITIAL_CAP).buf
    ensures Outcome([Seg(0, INITIAL_CAP, INITIAL_CAP)], 0, 100) == Placement([Seg(0, 64, 64), Seg(100, 128, 128)], 1, 0)
  {
    assert Fits(Grown(INITIAL_CAP), 100);
  }

  /** Linking a new arena after a tail the request does not fit leaves the
      outcome of the walk unchanged. */
  lemma OutcomeAppend(segs: seq<Seg>, size: int)
    requires |segs| >= 1 && SegsValid(segs) && 0 <= size
    requires !Fits(segs[|segs| - 1], size)
    ensures var c := segs[|segs| - 1].cap;
      SegsValid(segs + [Grown(c)]) && Outcome(segs + [Grown(c)], |segs|, size) == Outcome(segs, |segs| - 1, size)
  {
    var c := segs[|segs| - 1].cap;
    var s2 := segs + [Grown(c)];
    assert s2[..|segs|] == segs;
    if !Fits(Grown(c), size) {
      assert Tail(c, size) == [Grown(c)] + Tail(2 * c, size);
      assert s2 + Tail(2 * c, size) == segs + Tail(c, size);
    }
  }

  /** arena_alloc's loop from arena `k`, turn by turn: bump it if the
      request fits, else move on, linking a new arena first at the tail. */
  function Walk(segs: seq<Seg>, k: nat, size: int): Placement
    requires k < |segs| && SegsValid(segs) && 0 <= size
    decreases |segs| - k, size + segs[k].len - segs[k].cap
  {
    if Fits(segs[k], size) then Placement(segs[k := segs[k].(len := segs[k].len + size)], k, segs[k].len)
    else if k + 1 < |segs| then Walk(segs, k + 1, size)
    else
      var s2 := segs + [Grown(segs[k].cap)];
      assert SegsValid(s2);
      Walk(s2, k + 1, size)
  }

  /** The walk ends where Outcome says: in the first arena that fits, or
      in the last of the new tail. */
  lemma {:induction false} WalkIsOutcome(segs: seq<Seg>, k: nat, size: int)
    requires k < |segs| && SegsValid(segs) && 0 <= size
    ensures Walk(segs, k, size) == Outcome(segs, k, size)
    decreases |segs| - k, size + segs[k].len - segs[k].cap
  {
    if Fits(segs[k], size) {
      OutcomeHere(segs, k, size);
    } else if k + 1 < |segs| {
      WalkIsOutcome(segs, k + 1, size);
      OutcomeSkip(segs, k, size);
    } else {
      OutcomeAppend(segs, size);
      WalkIsOutcome(segs + [Grown(segs[k].cap)], k + 1, size);
    }
  }

  /** The walk stops at arena `k` when the request fits there. */
  lemma OutcomeHere(segs: seq<Seg>, k: nat, size: int)
    requires k < |segs| && SegsValid(segs) && 0 <= size && Fits(segs[k], size)
    ensures Outcome(segs, k, size) == Placement(segs[k := segs[k].(len := segs[k].len + size)], k, segs[k].len)
  {
  }

  /** The walk moves past arena `k` when the request does not fit there. */
  lemma OutcomeSkip(segs: seq<Seg>, k: nat, size: int)
    requires k + 1 < |segs| && SegsValid(segs) && 0 <= size && !Fits(segs[k], size)
    ensures Outcome(segs, k + 1, size) == Outcome(segs, k, size)
  {
  }
}
