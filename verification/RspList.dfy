// The doubly linked lists of responses: head and tail pointers, and nodes that
// point at their neighbours.
module RspList {

  class Rsp {
    var prev: Rsp?
    var next: Rsp?

    constructor ()
      ensures prev == null && next == null
    {
      prev, next := null, null;
    }
  }

  // s without the first occurrence of x.
  function Without<T(==)>(s: seq<T>, x: T): seq<T> {
    if s == [] then []
    else if s[0] == x then s[1..]
    else [s[0]] + Without(s[1..], x)
  }

  // What stands before and behind the first x.
  lemma {:induction false} Around<T>(s: seq<T>, x: T) returns (a: seq<T>, b: seq<T>)
    requires x in s
    ensures s == a + [x] + b && Without(s, x) == a + b
  {
    if s[0] == x {
      a, b := [], s[1..];
      assert a + b == b;
    } else {
      a, b := Around(s[1..], x);
      assert [s[0]] + (a + b) == ([s[0]] + a) + b;
      a := [s[0]] + a;
    }
  }

  lemma {:induction false} WithoutCount<T>(s: seq<T>, x: T)
    requires x in s
    ensures multiset(Without(s, x)) == multiset(s) - multiset{x}
  {
    assert s == [s[0]] + s[1..];
    if s[0] != x {
      WithoutCount(s[1..], x);
    }
  }

  function At(s: seq<Rsp>, i: int): Rsp? {
    if 0 <= i < |s| then s[i] else null
  }

  // Node i points at its neighbours.
  ghost predicate NodeAt(s: seq<Rsp>, i: int)
    reads s
  {
    0 <= i < |s| ==> s[i].prev == At(s, i - 1) && s[i].next == At(s, i + 1)
  }

  // Node j points at its neighbours, with node i left out between them.
  ghost predicate Unlinked(s: seq<Rsp>, i: nat, j: int)
    reads s
  {
    0 <= j < |s| && j != i ==>
      && s[j].prev == At(s, if j == i + 1 then i - 1 else j - 1)
      && s[j].next == At(s, if j == i - 1 then i + 1 else j + 1)
  }

  // No node occurs twice.
  predicate Distinct(s: seq<Rsp>) {
    forall i, j :: 0 <= i < j < |s| ==> s[i] != s[j]
  }

  // s without x, which stands behind a.
  predicate Rest(s: seq<Rsp>, a: seq<Rsp>, x: Rsp, b: seq<Rsp>, rest: seq<Rsp>) {
    s == a + [x] + b && rest == a + b
  }

  lemma RestAt(s: seq<Rsp>, a: seq<Rsp>, x: Rsp, b: seq<Rsp>, rest: seq<Rsp>, j: int)
    requires Rest(s, a, x, b, rest)
    ensures At(rest, j) == if j < |a| then At(s, j) else At(s, j + 1)
    ensures At(s, |a|) == x
  {
  }

  lemma RestDistinct(s: seq<Rsp>, a: seq<Rsp>, x: Rsp, b: seq<Rsp>, rest: seq<Rsp>)
    requires Rest(s, a, x, b, rest) && Distinct(s)
    ensures Distinct(rest) && x !in rest && forall y :: y in rest ==> y in s
  {
    forall j, k | 0 <= j < k < |rest|
      ensures rest[j] != rest[k]
    {
      RestAt(s, a, x, b, rest, j);
      RestAt(s, a, x, b, rest, k);
    }
    forall j | 0 <= j < |rest|
      ensures rest[j] != x && rest[j] in s
    {
      RestAt(s, a, x, b, rest, j);
    }
  }

  lemma RestNode(s: seq<Rsp>, a: seq<Rsp>, x: Rsp, b: seq<Rsp>, rest: seq<Rsp>, j: int)
    requires Rest(s, a, x, b, rest) && Unlinked(s, |a|, j) && Unlinked(s, |a|, j + 1)
    ensures NodeAt(rest, j)
  {
    RestAt(s, a, x, b, rest, j - 1);
    RestAt(s, a, x, b, rest, j);
    RestAt(s, a, x, b, rest, j + 1);
  }

  lemma RestLinked(s: seq<Rsp>, a: seq<Rsp>, x: Rsp, b: seq<Rsp>, rest: seq<Rsp>)
    requires Rest(s, a, x, b, rest) && forall j {:trigger Unlinked(s, |a|, j)} :: Unlinked(s, |a|, j)
    ensures forall j {:trigger NodeAt(rest, j)} :: NodeAt(rest, j)
  {
    forall j {:trigger NodeAt(rest, j)}
      ensures NodeAt(rest, j)
    {
      RestNode(s, a, x, b, rest, j);
    }
  }

  class List {
    var head: Rsp?
    var tail: Rsp?
    ghost var contents: seq<Rsp>

    // Neighbours point at each other, the ends at nothing, head and tail at the
    // ends; no node occurs twice.
    ghost predicate Linked()
      reads this, contents
    {
      && head == At(contents, 0) && tail == At(contents, |contents| - 1) && Distinct(contents)
      && forall i {:trigger NodeAt(contents, i)} :: NodeAt(contents, i)
    }

    constructor ()
      ensures Linked() && contents == []
    {
      head, tail, contents := null, null, [];
    }

    method Enqueue(rsp: Rsp)
      requires Linked() && rsp !in contents && rsp.prev == null && rsp.next == null
      modifies this, contents, rsp
      ensures Linked() && contents == old(contents) + [rsp]
    {
      ghost var s, n := contents, |contents|;
      assert forall i :: 0 <= i < n ==> NodeAt(s, i);
      if tail == null {
        assert head == null;
        head := rsp;
        tail := rsp;
      } else {
        tail.next := rsp;
        rsp.prev := tail;
        tail := rsp;
      }
      contents := contents + [rsp];
      forall i
        ensures NodeAt(contents, i)
      {
        assert 0 <= i < n ==> old(NodeAt(s, i));
      }
    }

    method Dequeue() returns (oldest: Rsp?)
      requires Linked()
      modifies this, contents
      ensures Linked()
      ensures oldest == null <==> old(contents) == []
      ensures oldest != null ==> [oldest] + contents == old(contents) && oldest.prev == null && oldest.next == null
      ensures oldest == null ==> contents == []
    {
      ghost var s := contents;
      assert NodeAt(s, 0) && NodeAt(s, 1);
      oldest := head;
      if oldest != null {
        head := oldest.next;
        oldest.next := null;
        if head != null {
          head.prev := null;
        } else {
          assert tail == oldest;
          tail := null;
        }
        contents := contents[1..];
        forall i
          ensures NodeAt(contents, i)
        {
          assert old(NodeAt(s, i + 1));
        }
      }
    }

    method Remove(rsp: Rsp)
      requires Linked() && rsp in contents
      modifies this, contents
      ensures Linked() && contents == Without(old(contents), rsp)
      ensures rsp.prev == null && rsp.next == null && rsp !in contents
    {
      ghost var a, b := Around(contents, rsp);
      Detach(rsp, a, b);
    }

    method Detach(rsp: Rsp, ghost a: seq<Rsp>, ghost b: seq<Rsp>)
      requires Linked() && contents == a + [rsp] + b
      modifies this, contents
      ensures Linked() && contents == a + b
      ensures rsp.prev == null && rsp.next == null && rsp !in contents
    {
      ghost var s := contents;
      Unlink(rsp, |a|);
      contents := a + b;
      RestDistinct(s, a, rsp, b, contents);
      RestLinked(s, a, rsp, b, contents);
      RestAt(s, a, rsp, b, contents, 0);
      RestAt(s, a, rsp, b, contents, |contents| - 1);
    }

    // Takes the node at i out of the chain of pointers.
    method Unlink(rsp: Rsp, ghost i: nat)
      requires Linked() && i < |contents| && contents[i] == rsp
      modifies this`head, this`tail, contents
      ensures rsp.prev == null && rsp.next == null
      ensures forall j {:trigger Unlinked(contents, i, j)} :: Unlinked(contents, i, j)
      ensures head == At(contents, if i == 0 then 1 else 0)
      ensures tail == At(contents, if i == |contents| - 1 then i - 1 else |contents| - 1)
    {
      assert forall j {:trigger NodeAt(contents, j)} :: NodeAt(contents, j);
      assert NodeAt(contents, i) && NodeAt(contents, i - 1) && NodeAt(contents, i + 1);
      assert head != null && tail != null;
      if rsp.prev != null {
        rsp.prev.next := rsp.next;
      } else {
        assert head == rsp;
        head := rsp.next;
      }
      if rsp.next != null {
        rsp.next.prev := rsp.prev;
      } else {
        assert tail == rsp;
        tail := rsp.prev;
      }
      rsp.next := null;
      rsp.prev := null;
      forall j
        ensures Unlinked(contents, i, j)
      {
        assert old(NodeAt(contents, j));
      }
    }

    // Visits every node, oldest first.
    method Drain() returns (visited: seq<Rsp>)
      requires Linked()
      ensures visited == contents
    {
      var current := head;
      visited := [];
      while current != null
        invariant |visited| <= |contents| && visited == contents[..|visited|]
        invariant current == At(contents, |visited|)
        decreases |contents| - |visited|
      {
        assert NodeAt(contents, |visited|);
        var next := current.next;
        visited := visited + [current];
        current := next;
      }
    }
  }
}
