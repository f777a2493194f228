/** The open-addressing hash map: linear probing, back-shift deletion, doubling. */
module HashMap {
  import opened Basics
  import opened Naturals

  /** A slot; `first` is None for the null key. A removed slot keeps its stale `second`. */
  datatype Slot<K, V> = Slot(first: Option<K>, second: V)
  // ----- cyclic intervals of slot indices -----

  /** t lies on the way from h to i, walking upwards and wrapping around. */
  predicate OnArc(h: int, t: int, i: int)
  {
    if h <= i then h <= t <= i else t >= h || t <= i
  }

  function Next(i: nat, n: nat): nat
  {
    if i + 1 == n then 0 else i + 1
  }

  /** Number of steps from i to e. */
  function Steps(i: nat, e: nat, n: nat): nat
    requires i < n && e < n
  {
    if i <= e then e - i else e - i + n
  }

  // ----- the table as a value -----

  type Table<K, V> = seq<Slot<K, V>>

  predicate Full<K, V>(s: Table<K, V>, i: int)
  {
    0 <= i < |s| && s[i].first.Some?
  }

  function Home<K>(hash: K -> nat, k: K, n: nat): nat
    requires n > 0
  {
    And(hash(k), n - 1)
  }

  ghost predicate Distinct<K, V>(s: Table<K, V>)
  {
    forall i, j :: 0 <= i < j < |s| && s[i].first.Some? ==> s[i].first != s[j].first
  }

  /** Every key is found by probing: no null slot between its home and its place. */
  ghost predicate Reachable<K, V>(hash: K -> nat, s: Table<K, V>)
    requires |s| > 0
  {
    forall i, t :: Full(s, i) && 0 <= t < |s| && OnArc(Home(hash, s[i].first.value, |s|), t, i) ==> Full(s, t)
  }

  ghost function Occupied<K, V>(s: Table<K, V>): set<int>
  {
    set i | 0 <= i < |s| && s[i].first.Some?
  }

  ghost function Keys<K, V>(s: Table<K, V>): set<K>
  {
    set i | 0 <= i < |s| && s[i].first.Some? :: s[i].first.value
  }

  /** The abstract map. */
  ghost function Contents<K, V>(s: Table<K, V>): map<K, V>
    requires Distinct(s)
  {
    map k | k in Keys(s) :: s[IndexOf(s, k)].second
  }

  ghost function IndexOf<K, V>(s: Table<K, V>, k: K): (i: int)
    requires k in Keys(s)
    ensures 0 <= i < |s| && s[i].first == Some(k)
  {
    var i :| 0 <= i < |s| && s[i].first == Some(k);
    i
  }

  lemma ContentsAt<K, V>(s: Table<K, V>, i: int)
    requires Distinct(s) && Full(s, i)
    ensures s[i].first.value in Contents(s) && Contents(s)[s[i].first.value] == s[i].second
  {
    assert s[i].first.value in Keys(s);
  }

  ghost predicate PowerOfTwo(n: nat)
  {
    exists k: nat :: Pow(2, k) == n
  }

  lemma PowerPositive(n: nat)
    requires PowerOfTwo(n)
    ensures n > 0
  {
  }

  lemma HomeInRange<K>(hash: K -> nat, k: K, n: nat)
    requires PowerOfTwo(n)
    ensures n > 0 && Home(hash, k, n) == hash(k) % n && Home(hash, k, n) < n
  {
    var e: nat :| n == Pow(2, e);
    AndMask(hash(k), e);
  }

  lemma SomeNull<K, V>(s: Table<K, V>)
    requires |Occupied(s)| < |s|
    ensures exists e :: 0 <= e < |s| && s[e].first.None?
  {
    if forall e :: 0 <= e < |s| ==> s[e].first.Some? {
      FullTable(s);
    }
  }

  lemma FullTable<K, V>(s: Table<K, V>)
    requires forall e :: 0 <= e < |s| ==> s[e].first.Some?
    ensures |Occupied(s)| == |s|
  {
    assert Occupied(s) == Range(|s|);
  }

  ghost function Range(n: nat): (r: set<int>)
    ensures |r| == n && forall i :: i in r <==> 0 <= i < n
  {
    if n == 0 then {} else Range(n - 1) + {n - 1}
  }

  // ----- inserting and moving entries -----

  /** A new key in the null slot where its probe ended. */
  lemma InsertKeeps<K, V>(hash: K -> nat, s: Table<K, V>, p: nat, key: K, s': Table<K, V>)
    requires PowerOfTwo(|s|) && p < |s| && s[p].first.None? && key !in Keys(s)
    requires |s| > 0 && Distinct(s) && Reachable(hash, s)
    requires forall t :: 0 <= t < |s| && t != p && OnArc(Home(hash, key, |s|), t, p) ==> Full(s, t)
    requires s' == s[p := Slot(Some(key), s[p].second)]
    ensures Distinct(s') && Reachable(hash, s') && Occupied(s') == Occupied(s) + {p} && p !in Occupied(s)
    ensures Contents(s') == Contents(s)[key := s[p].second]
  {
    assert Occupied(s') == Occupied(s) + {p};
    assert forall i :: Full(s, i) ==> s[i].first.value in Keys(s);
    assert forall t :: Full(s, t) ==> Full(s', t);
    InsertContents(s, p, key, s');
  }

  lemma InsertContents<K, V>(s: Table<K, V>, p: nat, key: K, s': Table<K, V>)
    requires p < |s| && s[p].first.None? && key !in Keys(s) && Distinct(s) && Distinct(s')
    requires s' == s[p := Slot(Some(key), s[p].second)]
    ensures Contents(s') == Contents(s)[key := s[p].second]
  {
    forall k
      ensures k in Keys(s') <==> k in Keys(s) || k == key
    {
      assert s'[p].first == Some(key);
      if k in Keys(s) {
        assert s'[IndexOf(s, k)].first == Some(k);
      }
      if k in Keys(s') && k != key {
        assert s[IndexOf(s', k)].first == Some(k);
      }
    }
    forall k | k in Keys(s')
      ensures Contents(s')[k] == if k == key then s[p].second else Contents(s)[k]
    {
      var i := IndexOf(s', k);
      ContentsAt(s', i);
      if k != key {
        ContentsAt(s, i);
      }
    }
  }

  function Cleared<K, V>(s: Table<K, V>, p: nat): Table<K, V>
    requires p < |s|
  {
    s[p := Slot(None, s[p].second)]
  }

  /** Clearing a slot removes exactly its key. */
  lemma ClearRemoves<K, V>(s: Table<K, V>, p: nat)
    requires Distinct(s) && Full(s, p)
    ensures Distinct(Cleared(s, p)) && Occupied(Cleared(s, p)) == Occupied(s) - {p} && p in Occupied(s)
    ensures Contents(Cleared(s, p)) == Contents(s) - {s[p].first.value}
  {
    var c := Cleared(s, p);
    forall k
      ensures k in Keys(c) <==> k in Keys(s) && k != s[p].first.value
    {
      if k in Keys(s) && k != s[p].first.value {
        assert c[IndexOf(s, k)] == s[IndexOf(s, k)];
      }
      if k in Keys(c) {
        assert s[IndexOf(c, k)].first == Some(k);
      }
    }
    forall k | k in Keys(c)
      ensures Contents(c)[k] == Contents(s)[k]
    {
      var i := IndexOf(c, k);
      ContentsAt(c, i);
      ContentsAt(s, i);
    }
  }

  /** Moving an entry to a null slot changes nothing in the map. */
  lemma MoveKeeps<K, V>(c: Table<K, V>, p: nat, q: nat, c': Table<K, V>)
    requires p < |c| && q < |c| && Distinct(c) && c[p].first.None? && c[q].first.Some?
    requires c' == c[p := c[q]][q := Slot(None, c[q].second)]
    ensures Distinct(c') && Contents(c') == Contents(c) && Occupied(c') == Occupied(c) - {q} + {p}
  {
    assert Occupied(c') == Occupied(c) - {q} + {p};
    assert forall i :: Full(c', i) ==> c'[i] == c[if i == p then q else i];
    MoveContents(c, p, q, c');
  }

  lemma MoveContents<K, V>(c: Table<K, V>, p: nat, q: nat, c': Table<K, V>)
    requires p < |c| && q < |c| && Distinct(c) && Distinct(c') && c[p].first.None? && c[q].first.Some?
    requires c' == c[p := c[q]][q := Slot(None, c[q].second)]
    ensures Contents(c') == Contents(c)
  {
    forall k
      ensures k in Keys(c) <==> k in Keys(c')
    {
      if k in Keys(c) {
        var i := IndexOf(c, k);
        assert c'[if i == q then p else i].first == Some(k);
      }
      if k in Keys(c') {
        var i := IndexOf(c', k);
        assert c[if i == p then q else i].first == Some(k);
      }
    }
    forall k | k in Keys(c)
      ensures Contents(c')[k] == Contents(c)[k]
    {
      var i := IndexOf(c, k);
      ContentsAt(c, i);
      ContentsAt(c', if i == q then p else i);
    }
  }

  // ----- back-shift deletion -----

  /**
   * The state of the deletion loop: c is the table with the candidate slot p cleared. Apart
   * from p nothing breaks a search, and no entry scanned so far (after p, up to q) needs p.
   */
  ghost predicate Shifting<K, V>(hash: K -> nat, c: Table<K, V>, p: nat, q: nat)
    requires PowerOfTwo(|c|)
  {
    && |c| > 0 && p < |c| && q < |c| && c[p].first.None?
    && (forall i, t :: Full(c, i) && 0 <= t < |c| && OnArc(Home(hash, c[i].first.value, |c|), t, i) ==> t == p || Full(c, t))
    && (forall i :: Full(c, i) && OnArc(p, i, q) ==> !OnArc(Home(hash, c[i].first.value, |c|), p, i))
    && (forall t :: 0 <= t < |c| && OnArc(p, t, q) && t != p ==> Full(c, t))
  }

  lemma ShiftStart<K, V>(hash: K -> nat, s: Table<K, V>, p: nat)
    requires PowerOfTwo(|s|) && Full(s, p) && Distinct(s) && Reachable(hash, s)
    ensures Shifting(hash, Cleared(s, p), p, p)
  {
    assert forall i :: Full(Cleared(s, p), i) ==> Full(s, i) && i != p;
    assert forall i :: Full(s, i) && i != p ==> Full(Cleared(s, p), i);
  }

  /** The entry at q can stay: its home lies after p, so its search does not pass p. */
  lemma ShiftStays<K, V>(hash: K -> nat, c: Table<K, V>, p: nat, q: nat, q': nat)
    requires PowerOfTwo(|c|) && Shifting(hash, c, p, q) && q' == Next(q, |c|) && Full(c, q') && q' != p
    requires OnArc(p, Home(hash, c[q'].first.value, |c|), q') && Home(hash, c[q'].first.value, |c|) != p
    ensures Shifting(hash, c, p, q')
  {
    HomeInRange(hash, c[q'].first.value, |c|);
  }

  /** The entry at q is moved down to p, and q becomes the candidate. */
  lemma ShiftMoves<K, V>(hash: K -> nat, c: Table<K, V>, p: nat, q: nat, q': nat, c': Table<K, V>)
    requires PowerOfTwo(|c|) && Shifting(hash, c, p, q) && q' == Next(q, |c|) && Full(c, q') && q' != p
    requires !(OnArc(p, Home(hash, c[q'].first.value, |c|), q') && Home(hash, c[q'].first.value, |c|) != p)
    requires c' == c[p := c[q']][q' := Slot(None, c[q'].second)]
    ensures Shifting(hash, c', q', q')
  {
    assert forall t :: Full(c', t) <==> t == p || (Full(c, t) && t != q');
    forall i, t | Full(c', i) && 0 <= t < |c| && OnArc(Home(hash, c'[i].first.value, |c|), t, i)
      ensures t == q' || Full(c', t)
    {
      var j := if i == p then q' else i;
      var h := Home(hash, c[j].first.value, |c|);
      HomeInRange(hash, c[j].first.value, |c|);
      if i == p {
        assert OnArc(h, t, q') && OnArc(h, p, q');
      }
    }
  }

  function Moved<K, V>(c: Table<K, V>, p: nat, q: nat): Table<K, V>
    requires p < |c| && q < |c|
  {
    c[p := c[q]][q := Slot(None, c[q].second)]
  }

  /** The loop state together with what the table must hold when the loop ends. */
  ghost predicate Deleting<K, V>(hash: K -> nat, c: Table<K, V>, p: nat, q: nat, rest: map<K, V>, count: int)
    requires PowerOfTwo(|c|)
  {
    Shifting(hash, c, p, q) && Distinct(c) && Contents(c) == rest && |Occupied(c)| == count
  }

  /** One step of the scan: the test of the source decides between moving and staying. */
  lemma ShiftStep<K, V>(hash: K -> nat, c: Table<K, V>, p: nat, q: nat, q': nat, rest: map<K, V>, count: int)
    requires PowerOfTwo(|c|) && Deleting(hash, c, p, q, rest, count)
    requires p < |c| && q' < |c| && q' == Next(q, |c|) && Full(c, q') && q' != p
    ensures var r := And(hash(c[q'].first.value), |c| - 1);
      if (q' > p && (r <= p || r > q')) || (q' < p && (r <= p && r > q')) then
        Deleting(hash, Moved(c, p, q'), q', q', rest, count)
      else
        Deleting(hash, c, p, q', rest, count)
  {
    var r := Home(hash, c[q'].first.value, |c|);
    HomeInRange(hash, c[q'].first.value, |c|);
    if OnArc(p, r, q') && r != p {
      ShiftStays(hash, c, p, q, q');
    } else {
      ShiftMoves(hash, c, p, q, q', Moved(c, p, q'));
      MoveKeeps(c, p, q', Moved(c, p, q'));
      MovedSize(Occupied(c), p, q');
    }
  }

  lemma DeletingStarts<K, V>(hash: K -> nat, s: Table<K, V>, p: nat)
    requires PowerOfTwo(|s|) && Full(s, p) && Distinct(s) && Reachable(hash, s)
    ensures Deleting(hash, Cleared(s, p), p, p, Contents(s) - {s[p].first.value}, |Occupied(s)| - 1)
  {
    ClearRemoves(s, p);
    ShiftStart(hash, s, p);
  }

  lemma DeletingEnds<K, V>(hash: K -> nat, c: Table<K, V>, p: nat, q: nat, e: nat, rest: map<K, V>, count: int)
    requires PowerOfTwo(|c|) && Deleting(hash, c, p, q, rest, count)
    requires e == Next(q, |c|) && e < |c| && e != p && c[e].first.None?
    ensures |c| > 0 && Reachable(hash, c) && Distinct(c) && Contents(c) == rest && |Occupied(c)| == count
  {
    ShiftEnds(hash, c, p, q, e);
  }

  lemma MovedSize(a: set<int>, p: int, q: int)
    requires q in a && p !in a
    ensures |a - {q} + {p}| == |a|
  {
  }

  /** A null slot after p ends every search that would have passed p. */
  lemma ShiftEnds<K, V>(hash: K -> nat, c: Table<K, V>, p: nat, q: nat, e: nat)
    requires PowerOfTwo(|c|) && Shifting(hash, c, p, q) && e == Next(q, |c|) && e < |c| && e != p && c[e].first.None?
    ensures Reachable(hash, c)
  {
    assert !Full(c, e);
    forall i | Full(c, i)
      ensures !OnArc(Home(hash, c[i].first.value, |c|), p, i)
    {
      HomeInRange(hash, c[i].first.value, |c|);
      if OnArc(Home(hash, c[i].first.value, |c|), p, i) {
        PastNull(Home(hash, c[i].first.value, |c|), p, q, e, i, |c|);
      }
    }
  }

  /** A walk from h over p to i that does not stop between p and q passes the slot after q. */
  lemma PastNull(h: nat, p: nat, q: nat, e: nat, i: nat, n: nat)
    requires h < n && p < n && q < n && i < n && e == Next(q, n) && e != p
    requires OnArc(h, p, i) && !OnArc(p, i, q)
    ensures OnArc(h, e, i)
  {
  }

  // ----- writing a value, listing entries -----

  lemma WriteKeeps<K, V>(hash: K -> nat, s: Table<K, V>, p: nat, v: V, s': Table<K, V>)
    requires Distinct(s) && |s| > 0 && Reachable(hash, s) && Full(s, p)
    requires s' == s[p := Slot(s[p].first, v)]
    ensures Distinct(s') && Reachable(hash, s') && Occupied(s') == Occupied(s)
    ensures Contents(s') == Contents(s)[s[p].first.value := v]
  {
    assert forall i :: Full(s', i) <==> Full(s, i);
    assert Occupied(s') == Occupied(s);
    WriteContents(s, p, v, s');
  }

  lemma WriteContents<K, V>(s: Table<K, V>, p: nat, v: V, s': Table<K, V>)
    requires Distinct(s) && Distinct(s') && Full(s, p)
    requires s' == s[p := Slot(s[p].first, v)]
    ensures Contents(s') == Contents(s)[s[p].first.value := v]
  {
    forall k
      ensures k in Keys(s') <==> k in Keys(s)
    {
      if k in Keys(s) {
        assert s'[IndexOf(s, k)].first == Some(k);
      }
      if k in Keys(s') {
        assert s[IndexOf(s', k)].first == Some(k);
      }
    }
    assert s[p].first.value in Keys(s);
    forall k | k in Keys(s)
      ensures Contents(s')[k] == if k == s[p].first.value then v else Contents(s)[k]
    {
      var i := IndexOf(s, k);
      ContentsAt(s, i);
      ContentsAt(s', i);
    }
  }

  lemma EmptyTable<K, V>(hash: K -> nat, s: Table<K, V>)
    requires |s| > 0 && forall i :: 0 <= i < |s| ==> s[i].first.None?
    ensures Distinct(s) && Reachable(hash, s) && Occupied(s) == {} && Contents(s) == map[]
  {
  }

  /** One more slot of a table read from the front. */
  lemma PrefixGrows<K, V>(s: Table<K, V>, p: nat)
    requires Distinct(s) && p < |s|
    ensures Distinct(s[..p]) && Distinct(s[..p + 1]) && Occupied(s[..p]) <= Occupied(s)
    ensures s[p].first.None? ==> Contents(s[..p + 1]) == Contents(s[..p]) && Occupied(s[..p + 1]) == Occupied(s[..p])
    ensures s[p].first.Some? ==> s[p].first.value !in Contents(s[..p])
    ensures s[p].first.Some? ==> Contents(s[..p + 1]) == Contents(s[..p])[s[p].first.value := s[p].second]
    ensures s[p].first.Some? ==> Occupied(s[..p + 1]) == Occupied(s[..p]) + {p} && p !in Occupied(s[..p])
  {
    hide Contents;
    AppendContents(s[..p], s[p], s[..p + 1]);
    AppendOccupied(s[..p], s[p], s[..p + 1]);
  }

  lemma AppendOccupied<K, V>(a: Table<K, V>, x: Slot<K, V>, b: Table<K, V>)
    requires b == a + [x]
    ensures Occupied(b) == if x.first.Some? then Occupied(a) + {|a|} else Occupied(a)
  {
  }

  lemma AppendContents<K, V>(a: Table<K, V>, x: Slot<K, V>, b: Table<K, V>)
    requires b == a + [x] && Distinct(b)
    ensures Distinct(a)
    ensures x.first.None? ==> Contents(b) == Contents(a)
    ensures x.first.Some? ==> x.first.value !in Contents(a) && Contents(b) == Contents(a)[x.first.value := x.second]
  {
    assert forall i :: 0 <= i < |a| ==> b[i] == a[i];
    assert b[|a|] == x;
    assert x.first.Some? ==> x.first.value !in Keys(a);
    forall k
      ensures k in Keys(b) <==> k in Keys(a) || x.first == Some(k)
    {
      if k in Keys(a) {
        assert b[IndexOf(a, k)].first == Some(k);
      }
      if k in Keys(b) && IndexOf(b, k) < |a| {
        assert a[IndexOf(b, k)].first == Some(k);
      }
    }
    forall k | k in Keys(b)
      ensures Contents(b)[k] == if x.first == Some(k) then x.second else Contents(a)[k]
    {
      var i := IndexOf(b, k);
      ContentsAt(b, i);
      if i < |a| {
        ContentsAt(a, i);
      }
    }
  }

  lemma PutAgain<K, V>(m: map<K, V>, k: K, v: V)
    ensures m[k := v] == (m - {k})[k := v]
  {
  }

  class QHashMap<K(==), V(0)> {
    const hash: K -> nat
    var slots: array<Slot<K, V>>
    var capacity: nat
    var occupancy: nat

    /** What holds between calls. */
    ghost predicate Valid()
      reads this, slots
    {
      Sound() && occupancy + occupancy / 4 < capacity
    }

    ghost predicate Sound()
      reads this, slots
    {
      && slots.Length == capacity && PowerOfTwo(capacity) && capacity > 0
      && occupancy == |Occupied(slots[..])|
      && Distinct(slots[..]) && Reachable(hash, slots[..])
    }

    ghost function Model(): map<K, V>
      reads this, slots
      requires Distinct(slots[..])
    {
      Contents(slots[..])
    }

    /** The slot holding the key, or the null slot that ends the search for it. */
    method Probe(key: K) returns (p: nat)
      requires Sound() && occupancy < capacity
      ensures p < capacity
      ensures slots[p].first == Some(key) || (slots[p].first.None? && key !in Keys(slots[..]))
      ensures slots[p].first.None? ==>
        forall t :: 0 <= t < capacity && t != p && OnArc(Home(hash, key, capacity), t, p) ==> Full(slots[..], t)
    {
      ghost var s := slots[..];
      HomeInRange(hash, key, capacity);
      SomeNull(s);
      ghost var e :| 0 <= e < |s| && s[e].first.None?;
      var home := And(hash(key), capacity - 1);
      p := home;
      while slots[p].first.Some? && !(hash(key) == hash(slots[p].first.value) && key == slots[p].first.value)
        invariant p < capacity
        invariant forall t :: 0 <= t < capacity && OnArc(home, t, p) && t != p ==> Full(s, t) && s[t].first != Some(key)
        invariant OnArc(home, p, e)
        decreases Steps(p, e, capacity)
      {
        p := p + 1;
        if p >= capacity {
          p := 0;
        }
      }
    }

    constructor (hash: K -> nat, initialCapacity: nat)
      requires PowerOfTwo(initialCapacity)
      ensures Valid() && fresh(slots) && Model() == map[] && this.hash == hash && capacity == initialCapacity
    {
      this.hash := hash;
      PowerPositive(initialCapacity);
      var value: V := *;
      slots := new Slot<K, V>[initialCapacity](_ => Slot(None, value));
      capacity, occupancy := initialCapacity, 0;
      new;
      EmptyTable(hash, slots[..]);
    }

    /** Allocates an empty table of the given capacity. */
    method Initialize(newCapacity: nat)
      requires PowerOfTwo(newCapacity)
      modifies this
      ensures Valid() && fresh(slots) && Model() == map[] && capacity == newCapacity && occupancy == 0
    {
      PowerPositive(newCapacity);
      var value: V := *;
      slots := new Slot<K, V>[newCapacity](_ => Slot(None, value));
      capacity := newCapacity;
      Clear();
    }

    method Clear()
      requires slots.Length == capacity && PowerOfTwo(capacity) && capacity > 0
      modifies this`occupancy, slots
      ensures Valid() && Model() == map[] && occupancy == 0
    {
      for p := 0 to capacity
        invariant forall i :: 0 <= i < p ==> slots[i].first.None?
      {
        slots[p] := Slot(None, slots[p].second);
      }
      occupancy := 0;
      EmptyTable(hash, slots[..]);
    }

    /**
     * The entry of the key; with `insert`, a missing key gets an entry (whose value is
     * whatever the slot held), growing the table at 80% occupancy.
     */
    method Lookup(key: K, insert: bool) returns (p: Option<nat>)
      requires Valid()
      modifies this, slots
      ensures Valid() && (slots == old(slots) || fresh(slots))
      ensures p.Some? <==> insert || key in old(Model())
      ensures p.Some? ==> p.value < capacity && slots[p.value].first == Some(key)
      ensures p.Some? ==> key in Model() && slots[p.value].second == Model()[key]
      ensures key in old(Model()) || !insert ==>
        unchanged(this) && slots[..] == old(slots[..])
      ensures key !in old(Model()) && insert ==> key in Model() && Model() - {key} == old(Model())
      ensures old((occupancy + 1) + (occupancy + 1) / 4 < capacity) ==> slots == old(slots) && capacity == old(capacity)
      ensures occupancy == old(occupancy) + (if key !in old(Model()) && insert then 1 else 0)
      decreases if (occupancy + 1) + (occupancy + 1) / 4 >= capacity then 4 else 0
    {
      var q := Probe(key);
      ghost var s := slots[..];
      if slots[q].first.Some? {
        ContentsAt(s, q);
        return Some(q);
      }
      if insert {
        Fill(key, q);
        if occupancy + occupancy / 4 >= capacity {
          Resize();
          assert key in Model() && Model() - {key} == old(Model());
          q := Probe(key);
        }
        ContentsAt(slots[..], q);
        return Some(q);
      }
      return None;
    }

    /** Puts the key into the null slot where its probe ended; the value stays what it was. */
    method Fill(key: K, q: nat)
      requires Valid() && q < capacity && slots[q].first.None? && key !in Keys(slots[..])
      requires forall t :: 0 <= t < capacity && t != q && OnArc(Home(hash, key, capacity), t, q) ==> Full(slots[..], t)
      modifies this`occupancy, slots
      ensures Sound() && occupancy == old(occupancy) + 1 && slots[q].first == Some(key)
      ensures key in Model() && Model() - {key} == old(Model())
    {
      ghost var s := slots[..];
      slots[q] := Slot(Some(key), slots[q].second);
      InsertKeeps(hash, s, q, key, slots[..]);
      assert Contents(s)[key := s[q].second] - {key} == Contents(s);
      occupancy := occupancy + 1;
    }

    /** Doubles the capacity and re-inserts every entry; no insertion here grows the table again. */
    method Resize()
      requires Sound() && occupancy + occupancy / 4 < 2 * capacity
      modifies this
      ensures Valid() && fresh(slots) && Model() == old(Model())
      ensures capacity == 2 * old(capacity) && occupancy == old(occupancy)
      decreases 2
    {
      var oldSlots := slots;
      ghost var m := oldSlots[..];
      var n := occupancy;
      DoublePower(capacity);
      Initialize(capacity * 2);
      var p := 0;
      while n > 0
        invariant 0 <= p <= |m| && oldSlots[..] == m && oldSlots != slots && fresh(slots)
        invariant Valid() && capacity == 2 * |m| && 0 <= n && occupancy + n == |Occupied(m)|
        invariant Distinct(m[..p]) && Model() == Contents(m[..p]) && occupancy == |Occupied(m[..p])|
        decreases |m| - p
      {
        assert m[..|m|] == m;
        PrefixGrows(m, p);
        if oldSlots[p].first.Some? {
          InsertAgain(oldSlots[p].first.value, oldSlots[p].second);
          n := n - 1;
        }
        p := p + 1;
      }
      AllListed(m, p);
    }

    /** A missing key is inserted with its value where there is room for it. */
    method InsertAgain(key: K, value: V)
      requires Valid() && key !in Model() && occupancy + 1 + (occupancy + 1) / 4 < capacity
      modifies this, slots
      ensures Valid() && slots == old(slots) && capacity == old(capacity) && occupancy == old(occupancy) + 1
      ensures Model() == old(Model())[key := value]
      decreases 1
    {
      var e := Lookup(key, true);
      ghost var s := slots[..];
      slots[e.value] := Slot(slots[e.value].first, value);
      WriteKeeps(hash, s, e.value, value, slots[..]);
      PutAgain(Contents(s), key, value);
    }

    /** As Lookup, and whether the entry was there before. */
    method LookupWithFound(key: K, insert: bool) returns (p: Option<nat>, found: bool)
      requires Valid()
      modifies this, slots
      ensures Valid() && (slots == old(slots) || fresh(slots))
      ensures found == (key in old(Model()))
      ensures p.Some? <==> insert || found
      ensures p.Some? ==> p.value < capacity && slots[p.value].first == Some(key)
      ensures p.Some? ==> key in Model() && slots[p.value].second == Model()[key]
      ensures found || !insert ==> unchanged(this) && slots[..] == old(slots[..])
      ensures !found && insert ==> key in Model() && Model() - {key} == old(Model())
    {
      var q := Probe(key);
      found := slots[q].first.Some?;
      if found {
        ContentsAt(slots[..], q);
        return Some(q), true;
      }
      p := Lookup(key, insert);
    }

    /** insert(pair), operator[] with assignment, and the range constructor's body. */
    method Insert(key: K, value: V)
      requires Valid()
      modifies this, slots
      ensures Valid() && (slots == old(slots) || fresh(slots))
      ensures Model() == old(Model())[key := value]
    {
      var p := Lookup(key, true);
      ghost var s := slots[..];
      slots[p.value] := Slot(slots[p.value].first, value);
      WriteKeeps(hash, s, p.value, value, slots[..]);
      PutAgain(Contents(s), key, value);
      PutAgain(old(Model()), key, value);
      assert key !in old(Model()) ==> old(Model()) - {key} == old(Model());
    }

    /** One turn of the deletion loop: advance q; stop at a null slot, else move or leave the entry. */
    method ShiftOne(p: nat, q: nat, ghost rest: map<K, V>, ghost count: int) returns (p': nat, q': nat, done: bool)
      requires slots.Length == capacity && PowerOfTwo(capacity) && p < capacity && q < capacity
      requires Deleting(hash, Cleared(slots[..], p), p, q, rest, count) && slots[p].first.Some?
      requires Next(q, capacity) != p
      modifies slots
      ensures p' < capacity && q' == Next(q, capacity) && done == old(slots[q'].first.None?)
      ensures p' == p || p' == q'
      ensures slots[p'].first.Some?
      ensures forall i :: 0 <= i < capacity ==> (slots[i].first.None? <==> old(slots[i]).first.None?)
      ensures !done ==> Deleting(hash, Cleared(slots[..], p'), p', q', rest, count)
      ensures done ==> p' == p && capacity > 0
      ensures done ==> var c := Cleared(slots[..], p);
        Reachable(hash, c) && Distinct(c) && Contents(c) == rest && |Occupied(c)| == count
    {
      ghost var c := Cleared(slots[..], p);
      hide Contents, Occupied, Deleting, Reachable, Distinct;
      q' := q + 1;
      if q' == capacity {
        q' := 0;
      }
      if slots[q'].first.None? {
        DeletingEnds(hash, c, p, q, q', rest, count);
        return p, q', true;
      }
      ShiftStep(hash, c, p, q, q', rest, count);
      var r := And(hash(slots[q'].first.value), capacity - 1);
      if (q' > p && (r <= p || r > q')) || (q' < p && (r <= p && r > q')) {
        slots[p] := slots[q'];
        assert Cleared(slots[..], q') == Moved(c, p, q');
        return q', q', false;
      }
      return p, q', false;
    }

    /** Empties the slot of an entry, moving later entries down so that none becomes unreachable. */
    method RemoveEntry(entry: nat)
      requires Valid() && entry < capacity && slots[entry].first.Some?
      modifies this`occupancy, slots
      ensures Valid() && Model() == old(Model()) - {old(slots[entry].first.value)}
      ensures occupancy == old(occupancy) - 1
    {
      ghost var s := slots[..];
      ghost var rest, count := Model() - {s[entry].first.value}, occupancy - 1;
      SomeNull(s);
      ghost var e :| 0 <= e < |s| && s[e].first.None?;
      DeletingStarts(hash, s, entry);
      var p: nat, q: nat, done := entry, entry, false;
      hide Contents, Occupied, Deleting, Reachable, Distinct;
      while !done
        invariant p < capacity && q < capacity && slots[p].first.Some? && slots[e].first.None?
        invariant !done ==> Deleting(hash, Cleared(slots[..], p), p, q, rest, count) && !OnArc(p, e, q)
        invariant done ==> var c := Cleared(slots[..], p);
          Reachable(hash, c) && Distinct(c) && Contents(c) == rest && |Occupied(c)| == count
        invariant occupancy == old(occupancy)
        decreases !done, Steps(q, e, capacity)
      {
        p, q, done := ShiftOne(p, q, rest, count);
      }
      ghost var c := Cleared(slots[..], p);
      slots[p] := Slot(None, slots[p].second);
      occupancy := occupancy - 1;
      assert slots[..] == c;
    }

    method Remove(key: K) returns (removed: bool)
      requires Valid()
      modifies this`occupancy, slots
      ensures Valid() && removed == (key in old(Model())) && Model() == old(Model()) - {key}
    {
      var p := Probe(key);
      if slots[p].first.None? {
        assert old(Model()) - {key} == old(Model());
        return false;
      }
      ContentsAt(slots[..], p);
      RemoveEntry(p);
      return true;
    }

    /** The next entry after slot p, None at the end; Start is NextEntry(-1). */
    method NextEntry(p: int) returns (q: Option<nat>)
      requires slots.Length == capacity && -1 <= p < capacity
      ensures q.Some? ==> p < q.value < capacity && slots[q.value].first.Some?
      ensures forall i :: p < i < (if q.Some? then q.value else capacity) ==> slots[i].first.None?
    {
      var i := p + 1;
      while i < capacity
        invariant p < i <= capacity
        invariant forall j :: p < j < i ==> slots[j].first.None?
      {
        if slots[i].first.Some? {
          return Some(i);
        }
        i := i + 1;
      }
      return None;
    }

    /** The iteration the class documents: every entry is visited, and visited once. */
    method Entries() returns (visited: seq<(K, V)>)
      requires Valid()
      ensures |visited| == occupancy && ListOf(Model(), visited)
    {
      ghost var s := slots[..];
      visited := [];
      var p := NextEntry(-1);
      ghost var at := 0;
      assert s[..0] == [];
      while p.Some?
        invariant 0 <= at <= capacity && (p.Some? ==> at <= p.value < capacity && s[p.value].first.Some?)
        invariant forall i :: at <= i < (if p.Some? then p.value else capacity) ==> s[i].first.None?
        invariant Lists(s[..at], visited)
        decreases capacity - at
      {
        SkipNulls(s, at, p.value, visited);
        ListsMore(s, p.value, visited);
        visited := visited + [(slots[p.value].first.value, slots[p.value].second)];
        at := p.value + 1;
        p := NextEntry(p.value);
      }
      SkipNulls(s, at, capacity, visited);
      assert s[..capacity] == s;
      ListsAll(s, visited);
    }
  }

  // ----- runs -----

  datatype Operation<K, V> =
    | Put(key: K, value: V)
    | Erase(key: K)
    | Empty
    | Find(key: K, insert: bool)        // Lookup, without a value being written
    | FindNoting(key: K, insert: bool)  // LookupWithFound

  /** A missing key that is inserted without a value gets some value; all else is as in a plain map. */
  ghost predicate Found<K, V>(m: map<K, V>, key: K, insert: bool, after: map<K, V>)
  {
    if key in m || !insert then after == m else key in after && after - {key} == m
  }

  /** What a plain map does; `answer` is what the operation tells the caller. */
  ghost predicate Step<K, V>(m: map<K, V>, op: Operation<K, V>, answer: bool, after: map<K, V>)
  {
    match op
    case Put(key, value) => after == m[key := value]
    case Erase(key) => answer == (key in m) && after == m - {key}
    case Empty => after == map[]
    case Find(key, insert) => answer == (insert || key in m) && Found(m, key, insert, after)
    case FindNoting(key, insert) => answer == (key in m) && Found(m, key, insert, after)
  }

  ghost predicate Follows<K(!new), V(!new)>(m: map<K, V>, run: seq<Operation<K, V>>, answers: seq<bool>, after: map<K, V>)
    requires |answers| == |run|
    decreases |run|
  {
    if run == [] then after == m
    else
      var n := |run| - 1;
      exists between :: Follows(m, run[..n], answers[..n], between) && Step(between, run[n], answers[n], after)
  }

  /** Over every run the table holds and answers what a plain map would, with room left for the next search. */
  method Run<K(==, !new), V(0, !new)>(table: QHashMap<K, V>, run: seq<Operation<K, V>>) returns (answers: seq<bool>)
    requires table.Valid()
    modifies table, table.slots
    ensures table.Valid() && |answers| == |run| && Follows(old(table.Model()), run, answers, table.Model())
  {
    answers := [];
    for i := 0 to |run|
      invariant table.Valid() && (table.slots == old(table.slots) || fresh(table.slots))
      invariant |answers| == i && Follows(old(table.Model()), run[..i], answers, table.Model())
    {
      ghost var between := table.Model();
      var answer := Perform(table, run[i]);
      assert run[..i + 1][..i] == run[..i] && (answers + [answer])[..i] == answers;
      answers := answers + [answer];
    }
    assert run[..|run|] == run;
  }

  method Perform<K(==), V(0)>(table: QHashMap<K, V>, op: Operation<K, V>) returns (answer: bool)
    requires table.Valid()
    modifies table, table.slots
    ensures table.Valid() && (table.slots == old(table.slots) || fresh(table.slots))
    ensures Step(old(table.Model()), op, answer, table.Model())
  {
    answer := false;
    match op {
      case Put(key, value) => table.Insert(key, value);
      case Erase(key) => answer := table.Remove(key);
      case Empty => table.Clear();
      case Find(key, insert) =>
        var p := table.Lookup(key, insert);
        answer := p.Some?;
      case FindNoting(key, insert) =>
        var p;
        p, answer := table.LookupWithFound(key, insert);
    }
  }

  // ----- traversal -----

  /** `visited` lists the entries of s in slot order. */
  ghost predicate Lists<K, V>(s: Table<K, V>, visited: seq<(K, V)>)
  {
    if s == [] then visited == []
    else
      var n := |s| - 1;
      if s[n].first.None? then Lists(s[..n], visited)
      else visited != [] && visited[|visited| - 1] == (s[n].first.value, s[n].second)
           && Lists(s[..n], visited[..|visited| - 1])
  }

  lemma {:induction false} SkipNulls<K, V>(s: Table<K, V>, from: nat, to: nat, visited: seq<(K, V)>)
    requires from <= to <= |s| && Lists(s[..from], visited)
    requires forall i :: from <= i < to ==> s[i].first.None?
    ensures Lists(s[..to], visited)
  {
    if from < to {
      SkipNulls(s, from, to - 1, visited);
      assert s[..to][..to - 1] == s[..to - 1];
    }
  }

  lemma ListsMore<K, V>(s: Table<K, V>, p: nat, visited: seq<(K, V)>)
    requires p < |s| && s[p].first.Some? && Lists(s[..p], visited)
    ensures Lists(s[..p + 1], visited + [(s[p].first.value, s[p].second)])
  {
    var v := visited + [(s[p].first.value, s[p].second)];
    assert s[..p + 1][..p] == s[..p] && v[..|v| - 1] == visited;
  }

  /** A list of pairs without repeated keys that holds exactly the pairs of m. */
  ghost predicate ListOf<K, V>(m: map<K, V>, visited: seq<(K, V)>)
  {
    && |visited| == |m|
    && (forall i, j :: 0 <= i < j < |visited| ==> visited[i].0 != visited[j].0)
    && (forall k :: k in m ==> (k, m[k]) in visited)
    && (forall i :: 0 <= i < |visited| ==> visited[i].0 in m && m[visited[i].0] == visited[i].1)
  }

  /** The visited entries are the map, and as many as the occupied slots. */
  lemma {:induction false} ListsAll<K, V>(s: Table<K, V>, visited: seq<(K, V)>)
    requires Distinct(s) && Lists(s, visited)
    ensures ListOf(Contents(s), visited) && |visited| == |Occupied(s)|
  {
    if s == [] {
      assert Occupied(s) == {} && Contents(s) == map[];
    } else if s[|s| - 1].first.None? {
      LastNull(s, visited);
      hide Contents, ListOf, Occupied, Distinct, Lists;
      ListsAll(s[..|s| - 1], visited);
    } else {
      LastEntry(s, visited);
      hide Contents, ListOf, Occupied, Distinct, Lists;
      ListsAll(s[..|s| - 1], visited[..|visited| - 1]);
      ListsEntry(Contents(s[..|s| - 1]), visited[..|visited| - 1], s[|s| - 1].first.value, s[|s| - 1].second);
    }
  }

  lemma LastNull<K, V>(s: Table<K, V>, visited: seq<(K, V)>)
    requires Distinct(s) && Lists(s, visited) && s != [] && s[|s| - 1].first.None?
    ensures var t := s[..|s| - 1]; Distinct(t) && Lists(t, visited) && Contents(t) == Contents(s) && Occupied(t) == Occupied(s)
  {
    var n := |s| - 1;
    assert s == s[..n] + [s[n]];
    hide Contents, Occupied, Distinct;
    AppendContents(s[..n], s[n], s);
    AppendOccupied(s[..n], s[n], s);
  }

  lemma LastEntry<K, V>(s: Table<K, V>, visited: seq<(K, V)>)
    requires Distinct(s) && Lists(s, visited) && s != [] && s[|s| - 1].first.Some?
    ensures var t, e := s[..|s| - 1], s[|s| - 1];
      && visited != [] && visited == visited[..|visited| - 1] + [(e.first.value, e.second)]
      && Distinct(t) && Lists(t, visited[..|visited| - 1])
      && e.first.value !in Contents(t) && Contents(s) == Contents(t)[e.first.value := e.second]
      && |Occupied(s)| == |Occupied(t)| + 1
  {
    var n := |s| - 1;
    assert s == s[..n] + [s[n]];
    OccupiedBelow(s[..n]);
    hide Contents, Occupied, Distinct;
    AppendContents(s[..n], s[n], s);
    AppendOccupied(s[..n], s[n], s);
    OneMore(Occupied(s[..n]), n);
  }

  lemma OneMore(a: set<int>, n: int)
    requires n !in a
    ensures |a + {n}| == |a| + 1
  {
  }

  lemma OccupiedBelow<K, V>(s: Table<K, V>)
    ensures |s| !in Occupied(s)
  {
  }

  lemma ListsEntry<K, V>(m: map<K, V>, visited: seq<(K, V)>, key: K, value: V)
    requires key !in m && ListOf(m, visited)
    ensures ListOf(m[key := value], visited + [(key, value)])
  {
  }

  lemma DoublePower(n: nat)
    requires PowerOfTwo(n)
    ensures PowerOfTwo(n * 2)
  {
    var k: nat :| Pow(2, k) == n;
    assert Pow(2, k + 1) == n * 2;
  }

  /** When as many entries have been read as there are, the prefix read holds the whole map. */
  lemma {:induction false} AllListed<K, V>(s: Table<K, V>, p: nat)
    requires Distinct(s) && p <= |s| && |Occupied(s[..p])| == |Occupied(s)|
    ensures Distinct(s[..p]) && Contents(s[..p]) == Contents(s)
    decreases |s| - p
  {
    if p == |s| {
      assert s[..p] == s;
    } else {
      PrefixGrows(s, p);
      if s[p].first.Some? {
        assert Occupied(s[..p]) + {p} <= Occupied(s);
        SubsetSize(Occupied(s[..p]) + {p}, Occupied(s));
      }
      AllListed(s, p + 1);
    }
  }

  lemma {:induction false} SubsetSize(a: set<int>, b: set<int>)
    requires a <= b
    ensures |a| <= |b|
  {
    assert b == a + (b - a);
  }
}
