/**
 * The intrusive list: nodes linked in a circle through a sentinel. Every reachable list is such
 * a ring and denotes a sequence; each operation performs the matching operation on the sequence
 * and writes only to the nodes next to the place.
 */
module RingList {
  import opened Basics

  class Node {
    var next: Node?
    var prev: Node?

    constructor ()
      ensures next == null && prev == null
    {
      next, prev := null, null;
    }

    predicate IsLinked()
      reads this
    {
      !(next == null && prev == null)
    }

    method Unlink()
      requires next != null && prev != null
      modifies this, next`prev, prev`next
      ensures !IsLinked()
      ensures old(next) != this ==> old(next).prev == old(prev)
      ensures old(prev) != this ==> old(prev).next == old(next)
    {
      next.prev := prev;
      prev.next := next;
      next, prev := null, null;
    }
  }

  // ----- rings -----

  function Succ(n: nat, i: nat): nat { if i + 1 >= n then 0 else i + 1 }

  ghost predicate Joined(a: Node, b: Node)
    reads a`next, b`prev
  {
    a.next == b && b.prev == a
  }

  /** The nodes of r, all different, are linked in a circle in both directions. */
  ghost predicate Ring(r: seq<Node>)
    reads r
  {
    && r != [] && Distinct(r)
    && forall i :: 0 <= i < |r| ==> Joined(r[i], r[Succ(|r|, i)])
  }

  ghost predicate Distinct<T>(r: seq<T>)
  {
    forall i, j :: 0 <= i < j < |r| ==> r[i] != r[j]
  }

  ghost function With<T>(r: seq<T>, p: nat, v: T): seq<T>
    requires p <= |r|
  {
    r[..p] + [v] + r[p..]
  }

  ghost function Without<T>(r: seq<T>, p: nat): seq<T>
    requires p < |r|
  {
    r[..p] + r[p + 1..]
  }

  /** Puts target in front of next. */
  method InsertBefore(next: Node, target: Node, ghost r: seq<Node>, ghost p: nat)
    requires Ring(r) && 1 <= p <= |r| && next == r[if p == |r| then 0 else p] && target !in r && next.prev != null
    modifies next`prev, next.prev`next, target
    ensures Ring(With(r, p, target))
    ensures old(next.prev) == r[p - 1]
  {
    assert Joined(r[p - 1], r[Succ(|r|, p - 1)]);
    var prev := next.prev;
    prev.next := target;
    target.prev := prev;
    target.next := next;
    next.prev := target;
    ghost var r' := With(r, p, target);
    forall i | 0 <= i < |r'|
      ensures Joined(r'[i], r'[Succ(|r'|, i)])
    {
      if i < p - 1 {
        assert old(Joined(r[i], r[Succ(|r|, i)]));
      } else if i > p {
        assert old(Joined(r[i - 1], r[Succ(|r|, i - 1)]));
      }
    }
  }

  /** Takes the p-th node out of the ring. */
  method Remove(node: Node, ghost r: seq<Node>, ghost p: nat)
    requires Ring(r) && 1 <= p < |r| && node == r[p] && node.next != null && node.prev != null
    modifies node, node.next`prev, node.prev`next
    ensures Ring(Without(r, p)) && !node.IsLinked()
  {
    assert Joined(r[p - 1], r[Succ(|r|, p - 1)]) && Joined(r[p], r[Succ(|r|, p)]);
    node.Unlink();
    ghost var r' := Without(r, p);
    forall i | 0 <= i < |r'|
      ensures Joined(r'[i], r'[Succ(|r'|, i)])
    {
      if i < p - 1 {
        assert old(Joined(r[i], r[Succ(|r|, i)]));
      } else if i >= p {
        assert old(Joined(r[i + 1], r[Succ(|r|, i + 1)]));
      }
    }
  }

  lemma RingEnds(r: seq<Node>, i: nat)
    requires Ring(r) && i < |r|
    ensures r[i].next == r[Succ(|r|, i)] && r[i].prev == r[if i == 0 then |r| - 1 else i - 1]
  {
    assert Joined(r[i], r[Succ(|r|, i)]);
    var j := if i == 0 then |r| - 1 else i - 1;
    assert Joined(r[j], r[Succ(|r|, j)]);
  }

  // ----- the list -----

  class List {
    const sentinel: Node
    var size: nat
    ghost var nodes: seq<Node>

    ghost predicate Valid()
      reads this, sentinel, nodes
    {
      Ring([sentinel] + nodes) && size == |nodes|
    }

    constructor ()
      ensures Valid() && nodes == [] && fresh(sentinel)
    {
      var s := new Node();
      s.next := s;
      s.prev := s;
      sentinel, size, nodes := s, 0, [];
    }

    /** An iterator stands at the k-th node; the sentinel is the end. */
    ghost predicate At(it: Node, k: nat)
      reads this`nodes
    {
      k <= |nodes| && it == if k < |nodes| then nodes[k] else sentinel
    }

    method Begin() returns (it: Node)
      requires Valid()
      ensures At(it, 0)
    {
      RingEnds([sentinel] + nodes, 0);
      it := sentinel.next;
    }

    /** The last node, which is the sentinel when there is none. */
    method Back() returns (it: Node)
      requires Valid()
      ensures it == if nodes == [] then sentinel else nodes[|nodes| - 1]
    {
      RingEnds([sentinel] + nodes, 0);
      it := sentinel.prev;
    }

    method Insert(cur: Node, v: Node, ghost k: nat) returns (it: Node)
      requires Valid() && At(cur, k) && v != sentinel && v !in nodes
      modifies this`size, this`nodes, v, cur`prev, if k == 0 then sentinel else nodes[k - 1]
      ensures Valid() && it == v && nodes == With(old(nodes), k, v)
    {
      ghost var r := [sentinel] + nodes;
      assert cur == r[if k + 1 == |r| then 0 else k + 1];
      RingEnds(r, if k + 1 == |r| then 0 else k + 1);
      assert cur.prev == if k == 0 then sentinel else nodes[k - 1];
      InsertBefore(cur, v, r, k + 1);
      nodes := With(nodes, k, v);
      assert [sentinel] + nodes == With(r, k + 1, v);
      size := size + 1;
      it := v;
    }

    method PushBack(v: Node)
      requires Valid() && v != sentinel && v !in nodes
      modifies this`size, this`nodes, v, sentinel, nodes
      ensures Valid() && nodes == old(nodes) + [v]
    {
      var it := Insert(sentinel, v, |nodes|);
    }

    method PushFront(v: Node)
      requires Valid() && v != sentinel && v !in nodes
      modifies this`size, this`nodes, v, sentinel, nodes
      ensures Valid() && nodes == [v] + old(nodes)
    {
      var it := Begin();
      it := Insert(it, v, 0);
    }

    /** Each new node becomes the place for the next, so the nodes end up in reverse order. */
    method InsertRange(cur: Node, vs: seq<Node>, ghost k: nat)
      requires Valid() && At(cur, k) && Distinct(vs) && forall v <- vs :: v != sentinel && v !in nodes
      modifies this`size, this`nodes, sentinel, nodes, vs
      ensures Valid() && nodes == old(nodes)[..k] + Reversed(vs) + old(nodes)[k..]
    {
      var place := cur;
      ghost var was := nodes;
      assert Reversed(vs[..0]) == [] && was[..k] + [] == was[..k];
      hide Ring;
      for i := 0 to |vs|
        invariant Valid() && At(place, k)
        invariant nodes == was[..k] + Reversed(vs[..i]) + was[k..]
        invariant place == if i == 0 then cur else vs[i - 1]
      {
        NextIsNew(was, vs, k, i);
        assert vs[i] in vs;
        assert k > 0 ==> nodes[k - 1] == was[k - 1];
        place := Insert(place, vs[i], k);
      }
      assert vs[..|vs|] == vs;
    }

    lemma NodesDiffer()
      requires Valid()
      ensures Distinct(nodes) && sentinel !in nodes
    {
      var r := [sentinel] + nodes;
      assert r[0] == sentinel;
      forall i, j | 0 <= i < j < |nodes|
        ensures nodes[i] != nodes[j]
      {
        assert nodes[i] == r[i + 1] && nodes[j] == r[j + 1];
      }
      forall i | 0 <= i < |nodes|
        ensures nodes[i] != sentinel
      {
        assert nodes[i] == r[i + 1];
      }
    }

    /** Takes out the k-th node and gives the place behind it. */
    method Erase(it: Node, ghost k: nat) returns (res: Node)
      requires Valid() && k < |nodes| && it == nodes[k]
      modifies this`size, this`nodes, it
      modifies if k + 1 < |nodes| then nodes[k + 1] else sentinel, if k == 0 then sentinel else nodes[k - 1]
      ensures Valid() && nodes == Without(old(nodes), k) && At(res, k) && !it.IsLinked()
    {
      ghost var r := [sentinel] + nodes;
      RingEnds(r, k + 1);
      res := it.next;
      Remove(it, r, k + 1);
      nodes := Without(nodes, k);
      assert [sentinel] + nodes == Without(r, k + 1);
      size := size - 1;
    }

    method EraseRange(it: Node, last: Node, ghost k: nat, ghost m: nat) returns (res: Node)
      requires Valid() && k <= m && At(it, k) && At(last, m)
      modifies this`size, this`nodes, sentinel, nodes
      ensures Valid() && nodes == old(nodes)[..k] + old(nodes)[m..] && res == last && At(res, k)
      ensures forall i :: k <= i < m ==> !old(nodes)[i].IsLinked()
    {
      var cur := it;
      ghost var was, gone := nodes, k;
      NodesDiffer();
      hide Ring, Without, Distinct;
      assert was == was[..k] + was[k..];
      while cur != last
        invariant k <= gone <= m && Valid() && At(cur, k) && nodes == was[..k] + was[gone..]
        invariant At(last, k + m - gone)
        invariant forall i :: k <= i < gone ==> !was[i].IsLinked()
        decreases |nodes|
      {
        GoneApart(was, k, gone);
        cur := EraseNext(cur, was, k, gone);
        gone := gone + 1;
      }
      res := last;
    }

    /** One more node of a stretch that begins at the k-th is taken out. */
    method EraseNext(it: Node, ghost was: seq<Node>, ghost k: nat, ghost gone: nat) returns (res: Node)
      requires Valid() && k <= gone < |was| && nodes == was[..k] + was[gone..] && it == was[gone]
      modifies this`size, this`nodes, sentinel, nodes
      ensures Valid() && nodes == was[..k] + was[gone + 1..] && At(res, k) && !was[gone].IsLinked()
    {
      DropOne(was, k, gone);
      hide Ring, Without, Distinct;
      res := Erase(it, k);
    }

    method PopBack()
      requires Valid() && nodes != []
      modifies this`size, this`nodes, sentinel, nodes
      ensures Valid() && nodes == old(nodes)[..|old(nodes)| - 1] && !old(nodes)[|old(nodes)| - 1].IsLinked()
    {
      var it := Back();
      var res := Erase(it, |nodes| - 1);
    }

    method PopFront()
      requires Valid() && nodes != []
      modifies this`size, this`nodes, sentinel, nodes
      ensures Valid() && nodes == old(nodes)[1..] && !old(nodes)[0].IsLinked()
    {
      var it := Begin();
      var res := Erase(it, 0);
    }

    method Clear()
      requires Valid()
      modifies this`size, this`nodes, sentinel, nodes
      ensures Valid() && nodes == [] && forall v <- old(nodes) :: !v.IsLinked()
    {
      var first := Begin();
      var res := EraseRange(first, sentinel, 0, |nodes|);
    }
  }

  /** What is in the list while vs is being inserted comes from the one or from the other. */
  lemma ComesFrom<T>(was: seq<T>, vs: seq<T>, k: nat, i: nat, n: T)
    requires k <= |was| && i <= |vs| && n in was[..k] + Reversed(vs[..i]) + was[k..]
    ensures n in was || n in vs[..i]
  {
    ReversedSame(vs[..i]);
    assert n in was[..k] || n in Reversed(vs[..i]) || n in was[k..];
  }

  /** The next node to insert is none of those in the list by then. */
  lemma NextIsNew<T>(was: seq<T>, vs: seq<T>, k: nat, i: nat)
    requires k <= |was| && i < |vs| && Distinct(vs) && forall v <- vs :: v !in was
    ensures var s := was[..k] + Reversed(vs[..i]) + was[k..];
      && vs[i] !in s && (forall n <- s :: n in was || n in vs)
      && With(s, k, vs[i]) == was[..k] + Reversed(vs[..i + 1]) + was[k..]
  {
    assert vs[..i + 1][..i] == vs[..i];
    var s := was[..k] + Reversed(vs[..i]) + was[k..];
    forall n | n in s
      ensures n in was || n in vs[..i]
    {
      ComesFrom(was, vs, k, i, n);
    }
    assert vs[i] in vs && vs[i] !in vs[..i];
    assert s[..k] == was[..k] && s[k..] == Reversed(vs[..i]) + was[k..];
  }

  lemma GoneApart<T>(s: seq<T>, k: nat, gone: nat)
    requires Distinct(s) && k <= gone <= |s|
    ensures forall i :: k <= i < gone ==> s[i] !in s[..k] + s[gone..]
  {
  }

  /** A stretch is taken out of s one element after the other. */
  lemma DropOne<T>(s: seq<T>, k: nat, gone: nat)
    requires k <= gone < |s|
    ensures var t := s[..k] + s[gone..];
      && t[k] == s[gone] && (k > 0 ==> t[k - 1] == s[k - 1]) && (k + 1 < |t| ==> t[k + 1] == s[gone + 1])
      && Without(t, k) == s[..k] + s[gone + 1..]
  {
  }
}
