/**
 * The region allocator: small requests are cut from a chain of arenas that Clear starts over,
 * large ones come from malloc. Over every run of New and Clear the blocks given out are aligned,
 * inside their arena or malloc block, and pairwise disjoint, and destruction frees everything once.
 */
module Regions {
  const ARENA_SIZE := 4096
  const ALIGNMENT := 8
  const HEADER := 16      // the two words of an arena, rounded up
  const THRESHOLD := 512  // 64 machine words

  datatype Block = Block(address: int, size: nat)

  predicate Disjoint(a: Block, b: Block)
  {
    a.address + a.size <= b.address || b.address + b.size <= a.address
  }

  predicate Aligned(x: int) { x % ALIGNMENT == 0 }

  function RoundUp(n: nat): (r: nat)
    ensures r % 8 == 0 && n <= r < n + 8
    ensures n <= THRESHOLD ==> r <= THRESHOLD
  {
    (n + ALIGNMENT - 1) / ALIGNMENT * ALIGNMENT
  }

  /** The blocks malloc has given out and not got back; all that is assumed of it is in the contracts. */
  class Heap {
    var live: map<int, nat>
    var top: nat

    ghost predicate Valid()
      reads this
    {
      && Aligned(top) && top > 0
      && (forall p <- live :: 0 < p && Aligned(p) && p + live[p] < top)
      && (forall p, q :: p in live && q in live && p != q ==> Disjoint(Block(p, live[p]), Block(q, live[q])))
    }

    constructor ()
      ensures Valid() && live == map[]
    {
      live, top := map[], 8;
    }

    method Malloc(size: nat) returns (p: int)
      requires Valid()
      modifies this
      ensures Valid() && p !in old(live) && Aligned(p) && p > 0
      ensures live == old(live)[p := size]
      ensures forall q <- old(live) :: Disjoint(Block(q, old(live)[q]), Block(p, size))
    {
      p := top;
      live := live[p := size];
      top := top + RoundUp(size) + ALIGNMENT;
    }

    /** Only what is live may be freed, so nothing is freed twice. */
    method Free(p: int)
      requires Valid() && p in live
      modifies this
      ensures Valid() && live == old(live) - {p}
    {
      live := live - {p};
    }
  }

  class Arena {
    const base: int
    var next: Arena?
    var position: int

    constructor (base: int, prev: Arena?)
      requires Aligned(base)
      modifies (if prev == null then {} else {prev})`next
      ensures this.base == base && next == null && position == base + HEADER && Within()
      ensures prev != null ==> prev.next == this
    {
      this.base := base;
      next := null;
      position := base + HEADER;
      new;
      if prev != null {
        prev.next := this;
      }
    }

    /** The position is aligned and lies between the header and the end. */
    predicate Within()
      reads this`position
    {
      base + HEADER <= position <= base + ARENA_SIZE && Aligned(position)
    }

    method Allocate(size: nat) returns (r: int)
      requires Within()
      modifies this`position
      ensures Within()
      ensures old(position) + RoundUp(size) <= base + ARENA_SIZE ==> r == old(position) && position == r + RoundUp(size)
      ensures old(position) + RoundUp(size) > base + ARENA_SIZE ==> r == -1 && position == old(position)
    {
      var n := RoundUp(size);
      if position + n <= base + ARENA_SIZE {
        r := position;
        position := position + n;
      } else {
        r := -1;
      }
    }

    method ToStart()
      requires Aligned(base)
      modifies this`position
      ensures position == base + HEADER && Within()
    {
      position := base + HEADER;
    }
  }

  // ----- the layout of a space as a value -----

  datatype Layout = Layout(
    live: map<int, nat>,     // everything malloc has given out
    bases: seq<int>,         // the arenas, in the order of the chain
    positions: seq<int>,     // where the free part of each begins
    current: nat,
    malloced: seq<int>,      // the large blocks
    blocks: seq<Block>)      // given out since the last Clear

  ghost predicate LiveApart(live: map<int, nat>)
  {
    forall p, q :: p in live && q in live && p != q ==> Disjoint(Block(p, live[p]), Block(q, live[q]))
  }

  /** The space's arenas and large blocks are live, and all different. */
  ghost predicate Owned(l: Layout)
  {
    && |l.positions| == |l.bases| && l.current < |l.bases|
    && (forall i :: 0 <= i < |l.bases| ==> l.bases[i] in l.live && l.live[l.bases[i]] == ARENA_SIZE && Aligned(l.bases[i]))
    && (forall i, j :: 0 <= i < j < |l.bases| ==> l.bases[i] != l.bases[j])
    && (forall i :: 0 <= i < |l.malloced| ==> l.malloced[i] in l.live)
    && (forall i, j :: 0 <= i < j < |l.malloced| ==> l.malloced[i] != l.malloced[j])
    && (forall i, j :: 0 <= i < |l.malloced| && 0 <= j < |l.bases| ==> l.malloced[i] != l.bases[j])
  }

  ghost predicate Within(base: int, position: int)
  {
    base + HEADER <= position <= base + ARENA_SIZE && Aligned(position)
  }

  /** b lies in the used part of the i-th arena. */
  ghost predicate InArena(l: Layout, b: Block, i: int)
    requires |l.positions| == |l.bases|
  {
    0 <= i < |l.bases| && i <= l.current && l.bases[i] + HEADER <= b.address && b.address + b.size <= l.positions[i]
  }

  /** An aligned block, either of its own from malloc or in an arena. */
  ghost predicate Located(l: Layout, b: Block)
    requires |l.positions| == |l.bases|
  {
    && Aligned(b.address)
    && ((b.address in l.malloced && b.address in l.live && l.live[b.address] == b.size) || exists i :: InArena(l, b, i))
  }

  ghost predicate Sound(l: Layout)
  {
    && LiveApart(l.live) && Owned(l)
    && (forall i :: 0 <= i <= l.current ==> Within(l.bases[i], l.positions[i]))
    && (forall b <- l.blocks :: Located(l, b))
    && (forall i, j :: 0 <= i < j < |l.blocks| ==> Disjoint(l.blocks[i], l.blocks[j]))
  }

  // ----- the steps -----

  ghost predicate Fits(l: Layout, size: nat)
    requires Owned(l)
  {
    l.positions[l.current] + RoundUp(size) <= l.bases[l.current] + ARENA_SIZE
  }

  ghost function Cut(l: Layout, size: nat): Layout
    requires Owned(l)
  {
    var p := l.positions[l.current];
    l.(positions := l.positions[l.current := p + RoundUp(size)], blocks := l.blocks + [Block(p, size)])
  }

  /** On to the next arena of the chain. */
  ghost function Advanced(l: Layout): Layout
    requires Owned(l) && l.current + 1 < |l.bases|
  {
    l.(current := l.current + 1, positions := l.positions[l.current + 1 := l.bases[l.current + 1] + HEADER])
  }

  /** A new arena at p, put at the end of the chain. */
  ghost function Extended(l: Layout, p: int): Layout
  {
    l.(live := l.live[p := ARENA_SIZE], bases := l.bases + [p], positions := l.positions + [p + HEADER], current := |l.bases|)
  }

  ghost function Large(l: Layout, p: int, size: nat): Layout
  {
    l.(live := l.live[p := size], malloced := l.malloced + [p], blocks := l.blocks + [Block(p, size)])
  }

  /** Back to the first arena, with all large blocks freed. */
  ghost function Cleared(l: Layout): Layout
    requires l.positions != [] && l.bases != []
  {
    Layout(l.live - Elements(l.malloced), l.bases, l.positions[0 := l.bases[0] + HEADER], 0, [], [])
  }

  ghost function Elements(s: seq<int>): set<int>
  {
    set i | 0 <= i < |s| :: s[i]
  }

  /** A block given out lies inside one live block of the heap. */
  lemma LiesInLive(l: Layout, b: Block) returns (p: int)
    requires Sound(l) && b in l.blocks
    ensures p in l.live && p <= b.address && b.address + b.size <= p + l.live[p]
  {
    assert Located(l, b);
    if i :| InArena(l, b, i) {
      p := l.bases[i];
      assert Within(l.bases[i], l.positions[i]);
    } else {
      p := b.address;
    }
  }

  predicate Covers(b: Block, x: int) { b.address <= x < b.address + b.size }

  ghost predicate Inside(live: map<int, nat>, b: Block)
  {
    exists p :: p in live && p <= b.address && b.address + b.size <= p + live[p]
  }

  /** Every block is aligned to eight octets and lies in live memory, and no address belongs to two blocks. */
  ghost predicate Placed(l: Layout)
  {
    && (forall b <- l.blocks :: b.address % 8 == 0 && Inside(l.live, b))
    && (forall i, j, x :: 0 <= i < j < |l.blocks| && Covers(l.blocks[i], x) ==> !Covers(l.blocks[j], x))
  }

  lemma SoundIsPlaced(l: Layout)
    requires Sound(l)
    ensures Placed(l)
  {
    forall b <- l.blocks
      ensures b.address % 8 == 0 && Inside(l.live, b)
    {
      assert Located(l, b);
      var p := LiesInLive(l, b);
    }
    forall i, j, x | 0 <= i < j < |l.blocks| && Covers(l.blocks[i], x)
      ensures !Covers(l.blocks[j], x)
    {
      assert Disjoint(l.blocks[i], l.blocks[j]);
    }
  }

  lemma CutKeeps(l: Layout, size: nat)
    requires Sound(l) && Fits(l, size)
    ensures Sound(Cut(l, size))
  {
    var l' := Cut(l, size);
    var n := Block(l.positions[l.current], size);
    assert Within(l.bases[l.current], l.positions[l.current]);
    forall b <- l.blocks
      ensures Located(l', b) && Disjoint(b, n)
    {
      CutIsApart(l, size, b);
    }
    assert InArena(l', n, l.current);
  }

  /** What is cut off overlaps no block given out before, and moves none. */
  lemma CutIsApart(l: Layout, size: nat, b: Block)
    requires Sound(l) && Fits(l, size) && b in l.blocks
    ensures Located(Cut(l, size), b) && Disjoint(b, Block(l.positions[l.current], size))
  {
    assert Located(l, b);
    assert Within(l.bases[l.current], l.positions[l.current]);
    if i :| InArena(l, b, i) {
      assert InArena(Cut(l, size), b, i);
      assert Within(l.bases[i], l.positions[i]);
      assert i != l.current ==> Disjoint(Block(l.bases[i], ARENA_SIZE), Block(l.bases[l.current], ARENA_SIZE));
    } else {
      assert Disjoint(b, Block(l.bases[l.current], ARENA_SIZE));
    }
  }

  lemma AdvancedKeeps(l: Layout)
    requires Sound(l) && l.current + 1 < |l.bases|
    ensures Sound(Advanced(l)) && forall size: nat :: size <= THRESHOLD ==> Fits(Advanced(l), size)
  {
    var l' := Advanced(l);
    forall b <- l.blocks
      ensures Located(l', b)
    {
      assert Located(l, b);
      if i :| InArena(l, b, i) {
        assert InArena(l', b, i);
      }
    }
  }

  lemma LiveGrows(live: map<int, nat>, p: int, size: nat)
    requires LiveApart(live) && p !in live && forall q <- live :: Disjoint(Block(q, live[q]), Block(p, size))
    ensures LiveApart(live[p := size])
  {
  }

  /** One arena, and nothing given out yet. */
  lemma FirstKeeps(live: map<int, nat>, p: int)
    requires LiveApart(live) && p !in live && Aligned(p)
    requires forall q <- live :: Disjoint(Block(q, live[q]), Block(p, ARENA_SIZE))
    ensures Sound(Layout(live[p := ARENA_SIZE], [p], [p + HEADER], 0, [], []))
  {
    LiveGrows(live, p, ARENA_SIZE);
  }

  lemma ExtendedKeeps(l: Layout, p: int)
    requires Sound(l) && l.current + 1 == |l.bases| && p !in l.live && Aligned(p)
    requires forall q <- l.live :: Disjoint(Block(q, l.live[q]), Block(p, ARENA_SIZE))
    ensures Sound(Extended(l, p))
  {
    var l' := Extended(l, p);
    LiveGrows(l.live, p, ARENA_SIZE);
    forall b <- l.blocks
      ensures Located(l', b)
    {
      assert Located(l, b);
      if i :| InArena(l, b, i) {
        assert InArena(l', b, i);
      }
    }
  }

  lemma LargeKeeps(l: Layout, p: int, size: nat)
    requires Sound(l) && p !in l.live && Aligned(p)
    requires forall q <- l.live :: Disjoint(Block(q, l.live[q]), Block(p, size))
    ensures Sound(Large(l, p, size))
  {
    var l' := Large(l, p, size);
    LiveGrows(l.live, p, size);
    forall b <- l.blocks
      ensures Located(l', b) && Disjoint(b, Block(p, size))
    {
      assert Located(l, b);
      if i :| InArena(l, b, i) {
        assert InArena(l', b, i);
      }
      var q := LiesInLive(l, b);
      assert Disjoint(Block(q, l.live[q]), Block(p, size));
    }
    assert Located(l', Block(p, size));
  }

  lemma ClearedKeeps(l: Layout)
    requires Sound(l)
    ensures Sound(Cleared(l))
  {
  }

  // ----- the space -----

  ghost predicate Chained(chain: seq<Arena>)
    reads chain`next
  {
    && (forall i :: 0 <= i < |chain| ==> chain[i].next == if i + 1 < |chain| then chain[i + 1] else null)
    && (forall i, j :: 0 <= i < j < |chain| ==> chain[i] != chain[j])
  }

  ghost predicate Mirrors(l: Layout, chain: seq<Arena>)
    reads chain`position
  {
    && |l.bases| == |chain| && |l.positions| == |chain|
    && forall i :: 0 <= i < |chain| ==> l.bases[i] == chain[i].base && l.positions[i] == chain[i].position
  }

  lemma ManyMirrors(l: Layout, chain: seq<Arena>)
    requires Mirrors(l, chain)
    ensures |l.bases| == |chain|
  {
  }

  lemma NextInChain(chain: seq<Arena>, i: nat)
    requires Chained(chain) && i < |chain|
    ensures chain[i].next == null <==> i + 1 == |chain|
    ensures i + 1 < |chain| ==> chain[i].next == chain[i + 1]
  {
    assert chain[i].next == if i + 1 < |chain| then chain[i + 1] else null;
  }

  lemma ChainOfOne(a: Arena)
    requires a.next == null
    ensures Chained([a])
  {
  }

  lemma DistinctChain(chain: seq<Arena>)
    requires Chained(chain)
    ensures forall i, j :: 0 <= i < j < |chain| ==> chain[i] != chain[j]
  {
  }

  twostate lemma ChainGrows(chain: seq<Arena>, new a: Arena)
    requires chain != [] && old(Chained(chain)) && a !in chain && a.next == null
    requires chain[|chain| - 1].next == a && forall i :: 0 <= i < |chain| - 1 ==> chain[i].next == old(chain[i].next)
    ensures Chained(chain + [a])
  {
  }

  /** What one call of New does to the layout; malloc chooses the address of what it gives out. */
  ghost predicate NewStep(l: Layout, size: nat, after: Layout)
    requires Owned(l)
  {
    if 0 < size <= THRESHOLD then
      if Fits(l, size) then after == Cut(l, size)
      else if l.current + 1 < |l.bases| then Owned(Advanced(l)) && after == Cut(Advanced(l), size)
      else exists p :: p !in l.live && Owned(Extended(l, p)) && after == Cut(Extended(l, p), size)
    else exists p :: p !in l.live && after == Large(l, p, size)
  }

  /** Every small request fits into an empty arena. */
  lemma EmptyFits(l: Layout, p: int)
    requires Sound(Extended(l, p)) && |l.positions| == |l.bases|
    ensures forall size: nat :: size <= THRESHOLD ==> Fits(Extended(l, p), size)
  {
  }

  lemma ElementsGrow(s: seq<int>, i: nat)
    requires i < |s|
    ensures Elements(s[..i + 1]) == Elements(s[..i]) + {s[i]}
    ensures (forall j, k :: 0 <= j < k < |s| ==> s[j] != s[k]) ==> s[i] !in Elements(s[..i])
  {
    assert s[..i + 1] == s[..i] + [s[i]];
    assert s[..i + 1][i] == s[i];
  }

  lemma ElementsOf(s: seq<int>)
    ensures Elements(s[..0]) == {} && s[..|s|] == s
  {
  }

  /** Nothing is owned twice. */
  lemma OwnsDistinct(l: Layout)
    requires Sound(l)
    ensures forall i :: 0 <= i < |l.bases| ==> l.bases[i] in l.live && Aligned(l.bases[i])
    ensures forall i, j :: 0 <= i < j < |l.bases| ==> l.bases[i] != l.bases[j]
    ensures forall i :: 0 <= i < |l.malloced| ==> l.malloced[i] in l.live && l.malloced[i] !in Elements(l.bases)
    ensures forall i, j :: 0 <= i < j < |l.malloced| ==> l.malloced[i] != l.malloced[j]
  {
  }

  class Space {
    const heap: Heap
    const start: Arena
    var arena: Arena
    var malloced: seq<int>

    ghost var chain: seq<Arena>  // all arenas, from the start on
    ghost var state: Layout

    ghost predicate Valid()
      reads this, heap, chain
    {
      heap.Valid() && Sound(state) && Linked() && Matches()
    }

    /** The chain runs through the next links, and the current arena is in it. */
    ghost predicate Linked()
      reads this, chain`next
    {
      state.current < |chain| && chain[0] == start && chain[state.current] == arena && Chained(chain)
    }

    ghost predicate Matches()
      reads this, heap, chain
    {
      state.live == heap.live && state.malloced == malloced && Mirrors(state, chain)
    }

    constructor (heap: Heap)
      requires heap.Valid()
      modifies heap
      ensures Valid() && this.heap == heap && fresh(chain[0])
      ensures start.base !in old(heap.live)
      ensures state == Layout(old(heap.live)[start.base := ARENA_SIZE], [start.base], [start.base + HEADER], 0, [], [])
    {
      var p := FirstBlock(heap);
      hide Sound, Aligned, Heap.Valid, Arena.Within, Chained;
      var a := new Arena(p, null);
      this.heap := heap;
      arena, start, malloced := a, a, [];
      chain, state := [a], Layout(heap.live, [p], [p + HEADER], 0, [], []);
      new;
      ChainOfOne(a);
    }

    static method FirstBlock(heap: Heap) returns (p: int)
      requires heap.Valid()
      modifies heap
      ensures heap.Valid() && p !in old(heap.live) && heap.live == old(heap.live)[p := ARENA_SIZE] && Aligned(p)
      ensures Sound(Layout(heap.live, [p], [p + HEADER], 0, [], []))
    {
      p := heap.Malloc(ARENA_SIZE);
      FirstKeeps(old(heap.live), p);
    }

    /** The memory of one more arena. */
    method NextBlock() returns (p: int)
      requires heap.Valid() && Sound(state) && state.live == heap.live && state.current + 1 == |state.bases|
      modifies heap
      ensures heap.Valid() && p !in old(heap.live) && heap.live == old(heap.live)[p := ARENA_SIZE] && Aligned(p)
      ensures Sound(Extended(state, p)) && forall size: nat :: size <= THRESHOLD ==> Fits(Extended(state, p), size)
    {
      p := heap.Malloc(ARENA_SIZE);
      ExtendedKeeps(state, p);
      EmptyFits(state, p);
    }

    method New(size: nat) returns (r: int)
      requires Valid()
      modifies this, heap, chain
      ensures Valid() && NewStep(old(state), size, state)
      ensures state.blocks == old(state.blocks) + [Block(r, size)]
      ensures old(chain) <= chain && forall i :: |old(chain)| <= i < |chain| ==> fresh(chain[i])
    {
      hide Sound, Chained, Aligned, RoundUp;
      if 0 < size <= THRESHOLD {
        r := CutHere(size);
        if r == -1 {
          MoveOn();
          r := CutHere(size);
        }
      } else {
        r := NewLarge(size);
      }
    }

    method NewLarge(size: nat) returns (r: int)
      requires Valid()
      modifies this`malloced, this`state, heap
      ensures Valid() && r !in old(heap.live) && state == Large(old(state), r, size)
    {
      hide Sound, LiveApart, Chained, Aligned, RoundUp, Heap.Valid;
      r := heap.Malloc(size);
      malloced := malloced + [r];
      LargeKeeps(state, r, size);
      state := Large(state, r, size);
    }

    /** A block from the current arena, or nothing when it is full up. */
    method CutHere(size: nat) returns (r: int)
      requires Valid()
      modifies this`state, arena`position
      ensures Owned(old(state)) && (r == -1 <==> !Fits(old(state), size))
      ensures Valid() && if r == -1 then state == old(state) else r == old(arena.position) && state == Cut(old(state), size)
    {
      CurrentArena();
      hide Heap.Valid, Chained, Sound, Owned, RoundUp, LiveApart, Aligned, Arena.Within;
      r := arena.Allocate(size);
      if r != -1 {
        CutKeeps(state, size);
        state := Cut(state, size);
      }
    }

    lemma CurrentArena()
      requires Valid()
      ensures Owned(state) && arena.Within() && arena.base > 0
      ensures state.bases[state.current] == arena.base && state.positions[state.current] == arena.position
      ensures forall i, j :: 0 <= i < j < |chain| ==> chain[i] != chain[j]
    {
      assert Within(state.bases[state.current], state.positions[state.current]);
    }

    /** The next arena of the chain, or a new one at its end, made empty. */
    method MoveOn()
      requires Valid()
      modifies this`arena, this`chain, this`state, heap, chain
      ensures Valid() && Owned(old(state))
      ensures forall size: nat :: size <= THRESHOLD ==> Fits(state, size)
      ensures if old(state).current + 1 < |old(state).bases| then state == Advanced(old(state))
              else exists p :: p !in old(heap.live) && state == Extended(old(state), p)
      ensures old(chain) <= chain && forall i :: |old(chain)| <= i < |chain| ==> fresh(chain[i])
    {
      CurrentArena();
      NextInChain(chain, state.current);
      hide Sound, Owned, Chained, Aligned, RoundUp, Heap.Valid, Arena.Within;
      if arena.next != null {
        GoOn();
      } else {
        AddArena();
      }
    }

    method GoOn()
      requires Valid() && arena.next != null
      modifies this`arena, this`state, chain
      ensures Valid() && old(state).current + 1 < |old(state).bases| && Owned(old(state))
      ensures state == Advanced(old(state)) && forall size: nat :: size <= THRESHOLD ==> Fits(state, size)
    {
      CurrentArena();
      NextInChain(chain, state.current);
      AdvancedKeeps(state);
      ghost var next := state.current + 1;
      assert state.bases[next] == chain[next].base;
      assert Aligned(state.bases[next]);
      hide Sound, Chained, Aligned, RoundUp, Heap.Valid, LiveApart, Arena.Within;
      arena := arena.next;
      arena.ToStart();
      state := Advanced(state);
    }

    method AddArena()
      requires Valid() && arena.next == null
      modifies this`arena, this`chain, this`state, heap, arena
      ensures Valid() && |chain| == |old(chain)| + 1 && old(chain) <= chain && fresh(chain[|old(chain)|])
      ensures chain[|old(chain)|].base !in old(heap.live) && state == Extended(old(state), chain[|old(chain)|].base)
      ensures forall size: nat :: size <= THRESHOLD ==> Fits(state, size)
    {
      CurrentArena();
      NextInChain(chain, state.current);
      hide Sound, Owned, Chained, Aligned, RoundUp, Heap.Valid, LiveApart, Arena.Within, Fits, Mirrors;
      assert |state.bases| == |chain| by { ManyMirrors(state, chain); }
      var p := NextBlock();
      arena := LinkArena(p);
      state := Extended(state, p);
    }

    /** The arena at p becomes the last of the chain, and is made empty. */
    method LinkArena(p: int) returns (a: Arena)
      requires Linked() && state.current + 1 == |chain| && arena.next == null && Aligned(p) && Mirrors(state, chain)
      modifies this`chain, arena`next
      ensures fresh(a) && a.base == p && chain == old(chain) + [a] && Chained(chain)
      ensures Mirrors(Extended(state, p), chain)
    {
      DistinctChain(chain);
      hide Chained, Aligned;
      a := new Arena(p, arena);
      ChainGrows(chain, a);
      a.ToStart();
      chain := chain + [a];
    }

    /** All blocks are given up; the arenas are kept for what comes. */
    method Clear()
      requires Valid()
      modifies this`arena, this`malloced, this`state, heap, chain
      ensures Valid() && state.positions != [] && state.bases != [] && state == Cleared(old(state))
    {
      ClearedKeeps(state);
      OwnsDistinct(state);
      assert state.bases[0] == start.base;
      DistinctChain(chain);
      hide Sound, Owned, LiveApart, Chained, Heap.Valid, Aligned, RoundUp, Arena.Within;
      arena := start;
      arena.ToStart();
      FreeMalloced();
      malloced := [];
      state := Cleared(state);
    }

    method FreeMalloced()
      requires heap.Valid() && forall i :: 0 <= i < |malloced| ==> malloced[i] in heap.live
      requires forall i, j :: 0 <= i < j < |malloced| ==> malloced[i] != malloced[j]
      modifies heap
      ensures heap.Valid() && heap.live == old(heap.live) - Elements(malloced)
    {
      hide Heap.Valid, Elements;
      ElementsOf(malloced);
      for i := 0 to |malloced|
        invariant heap.Valid() && heap.live == old(heap.live) - Elements(malloced[..i])
      {
        ElementsGrow(malloced, i);
        heap.Free(malloced[i]);
      }
    }

    /** Every arena and every large block still held is freed, each once; nothing else is. */
    method Destroy()
      requires Valid()
      modifies heap
      ensures heap.Valid() && heap.live == old(heap.live) - Elements(state.bases) - Elements(malloced)
    {
      OwnsDistinct(state);
      FreeArenas();
      FreeMalloced();
    }

    method FreeArenas()
      requires heap.Valid() && Linked() && Mirrors(state, chain)
      requires forall i :: 0 <= i < |state.bases| ==> state.bases[i] in heap.live
      requires forall i, j :: 0 <= i < j < |state.bases| ==> state.bases[i] != state.bases[j]
      modifies heap
      ensures heap.Valid() && heap.live == old(heap.live) - Elements(state.bases)
    {
      hide Elements, Heap.Valid, Chained;
      ElementsOf(state.bases);
      var now: Arena? := start;
      ghost var i := 0;
      while now != null
        invariant 0 <= i <= |chain| && now == if i < |chain| then chain[i] else null
        invariant Chained(chain)
        invariant heap.Valid() && heap.live == old(heap.live) - Elements(state.bases[..i])
        decreases |chain| - i
      {
        NextInChain(chain, i);
        ElementsGrow(state.bases, i);
        var next := now.next;
        heap.Free(now.base);
        now := next;
        i := i + 1;
      }
    }
  }

  // ----- runs -----

  datatype Request = Allocate(size: nat) | Clear

  /** The sizes asked for since the last Clear. */
  function Pending(sizes: seq<nat>, run: seq<Request>): seq<nat>
    decreases |run|
  {
    if run == [] then sizes
    else Pending(if run[0].Clear? then [] else sizes + [run[0].size], run[1..])
  }

  ghost function Sizes(blocks: seq<Block>): (r: seq<nat>)
    ensures |r| == |blocks| && forall i :: 0 <= i < |r| ==> r[i] == blocks[i].size
  {
    seq(|blocks|, i requires 0 <= i < |blocks| => blocks[i].size)
  }

  lemma SizesGrow(blocks: seq<Block>, b: Block)
    ensures Sizes(blocks + [b]) == Sizes(blocks) + [b.size]
  {
  }

  lemma SizesNone()
    ensures Sizes([]) == []
  {
  }

  /** Over every run, the blocks given out since the last Clear are those asked for, and each has its own place. */
  method Run(space: Space, run: seq<Request>)
    requires space.Valid()
    modifies space, space.heap, space.chain
    ensures space.Valid() && Sizes(space.state.blocks) == Pending(old(Sizes(space.state.blocks)), run)
    ensures Placed(space.state)
  {
    hide Placed, Sound, Owned, LiveApart, Chained, Sizes, Heap.Valid;
    for i := 0 to |run|
      invariant space.Valid() && old(space.chain) <= space.chain
      invariant forall k :: |old(space.chain)| <= k < |space.chain| ==> fresh(space.chain[k])
      invariant Pending(Sizes(space.state.blocks), run[i..]) == Pending(old(Sizes(space.state.blocks)), run)
    {
      ghost var before := space.state.blocks;
      match run[i] {
        case Allocate(size) =>
          var r := space.New(size);
          SizesGrow(before, Block(r, size));
        case Clear =>
          space.Clear();
          SizesNone();
      }
    }
    SoundIsPlaced(space.state);
  }
}
