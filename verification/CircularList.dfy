/** The intrusive circular doubly linked list (include/list.h) as operations on sequences. */
module CircularList {

  /** A `list_head` embedded in a statistics node; a list's head uses the links only. */
  class Node {
    var next: Node
    var prev: Node
    var pid: seq<int>
    var rxCnt: nat
    var distance: real

    /** `INIT_LIST_HEAD` on a fresh node. */
    constructor (pid: seq<int>)
      ensures next == this && prev == this && this.pid == pid && rxCnt == 0 && distance == 0.0
    {
      next, prev := this, this;
      this.pid := pid;
      rxCnt, distance := 0, 0.0;
    }
  }

  function Succ(i: nat, n: nat): nat { if i + 1 < n then i + 1 else 0 }

  predicate Distinct(s: seq<Node>)
  {
    forall i, j | 0 <= i < j < |s| :: s[i] != s[j]
  }

  /** The nodes of `s`, in this order, form one circle. */
  ghost predicate Ring(s: seq<Node>)
    reads s
  {
    && |s| > 0 && Distinct(s)
    && forall i {:trigger s[i]} | 0 <= i < |s| :: s[i].next == s[Succ(i, |s|)] && s[Succ(i, |s|)].prev == s[i]
  }

  /** The list with this head and these elements. */
  ghost predicate List(head: Node, xs: seq<Node>)
    reads head, xs
  {
    Ring([head] + xs)
  }

  function Without<T>(xs: seq<T>, k: nat): seq<T>
    requires k < |xs|
  {
    xs[..k] + xs[k + 1..]
  }

  method InitListHead(ptr: Node)
    modifies ptr`next, ptr`prev
    ensures Ring([ptr])
  {
    ptr.next := ptr;
    ptr.prev := ptr;
  }

  function Inserted<T>(s: seq<T>, i: nat, x: T): seq<T>
    requires i < |s|
  {
    s[..i + 1] + [x] + s[i + 1..]
  }

  lemma InsertedDistinct(n: Node, s: seq<Node>, i: nat)
    requires Distinct(s) && i < |s| && n !in s
    ensures Distinct(Inserted(s, i, n))
  {
    var r := Inserted(s, i, n);
    forall a, b | 0 <= a < b < |r|
      ensures r[a] != r[b]
    {
      var a', b' := if a <= i then a else a - 1, if b <= i then b else b - 1;
      assert a != i + 1 ==> r[a] == s[a'];
      assert b != i + 1 ==> r[b] == s[b'];
    }
  }

  lemma WithoutDistinct(s: seq<Node>, k: nat)
    requires Distinct(s) && k < |s|
    ensures Distinct(Without(s, k)) && s[k] !in Without(s, k)
  {
    var r := Without(s, k);
    forall a, b | 0 <= a < b < |r|
      ensures r[a] != r[b]
    {
      var a', b' := if a < k then a else a + 1, if b < k then b else b + 1;
      assert r[a] == s[a'] && r[b] == s[b'];
    }
  }

  /** A node's neighbours are in its circle. */
  lemma Neighbours(s: seq<Node>, k: nat)
    requires Ring(s) && k < |s|
    ensures s[k].next in s && s[k].prev in s
  {
    var p := if k > 0 then k - 1 else |s| - 1;
    assert s[p].next == s[Succ(p, |s|)] == s[k];
    assert s[k].next == s[Succ(k, |s|)];
  }

  /** The head's neighbours are the first and the last element, or the head itself. */
  lemma HeadNeighbours(head: Node, xs: seq<Node>)
    requires List(head, xs)
    ensures head.next == (if xs == [] then head else xs[0]) && (head.next == head <==> xs == [])
    ensures head.prev == (if xs == [] then head else xs[|xs| - 1])
  {
    var s := [head] + xs;
    assert s[0].next == s[Succ(0, |s|)];
    assert s[|xs|].next == s[Succ(|xs|, |s|)] && s[Succ(|xs|, |s|)].prev == s[|xs|];
  }

  /** An element is not the head, and leads to the next element or back to the head. */
  lemma NextElement(head: Node, xs: seq<Node>, k: nat)
    requires List(head, xs) && k < |xs|
    ensures xs[k] != head && xs[k].next == if k + 1 < |xs| then xs[k + 1] else head
  {
    var s := [head] + xs;
    assert s[0] == head && s[k + 1] == xs[k] && s[0] != s[k + 1];
    hide Distinct;
    assert s[k + 1].next == s[Succ(k + 1, |s|)];
  }

  /** `__list_add`; `prev` and `next` are the same node when the list is empty. */
  method ListAddBetween(n: Node, before: Node, after: Node, ghost s: seq<Node>, ghost i: nat)
    requires Ring(s) && n !in s && i < |s| && before == s[i] && after == s[Succ(i, |s|)]
    modifies n`next, n`prev, before`next, after`prev
    ensures Ring(Inserted(s, i, n))
  {
    after.prev := n;
    n.next := after;
    n.prev := before;
    before.next := n;
    ghost var r := Inserted(s, i, n);
    assert |r| == |s| + 1;
    hide Inserted;
    forall j {:trigger r[j]} | 0 <= j < |r|
      ensures r[j].next == r[Succ(j, |r|)] && r[Succ(j, |r|)].prev == r[j]
    {
      InsertedAt(s, i, n, j);
      if j != i && j != i + 1 {
        var k := if j < i then j else j - 1;
        assert old(s[k].next) == s[Succ(k, |s|)] && old(s[Succ(k, |s|)].prev) == s[k];
      }
    }
    InsertedDistinct(n, s, i);
    hide Distinct;
  }

  lemma InsertedAt(s: seq<Node>, i: nat, n: Node, j: nat)
    requires i < |s| && j <= |s|
    ensures var r, k := Inserted(s, i, n), if j < i then j else j - 1;
            && |r| == |s| + 1
            && r[j] == (if j == i then s[i] else if j == i + 1 then n else s[k])
            && r[Succ(j, |r|)] == if j == i then n else if j == i + 1 then s[Succ(i, |s|)] else s[Succ(k, |s|)]
  {
  }

  /** `list_add`: the new node becomes the first element. */
  method ListAdd(n: Node, head: Node, ghost xs: seq<Node>)
    requires List(head, xs) && n != head && n !in xs
    modifies n`next, n`prev, head`next, head.next`prev
    ensures List(head, [n] + xs)
  {
    HeadNeighbours(head, xs);
    hide Ring;
    ghost var s := [head] + xs;
    assert head.next == s[Succ(0, |s|)];
    assert [head] + ([n] + xs) == Inserted(s, 0, n);
    ListAddBetween(n, head, head.next, s, 0);
  }

  /** `list_add_tail`: the new node becomes the last element. */
  method ListAddTail(n: Node, head: Node, ghost xs: seq<Node>)
    requires List(head, xs) && n != head && n !in xs
    modifies n`next, n`prev, head`prev, head.prev`next
    ensures List(head, xs + [n])
  {
    HeadNeighbours(head, xs);
    hide Ring;
    ghost var s := [head] + xs;
    assert head == s[Succ(|xs|, |s|)] && head.prev == s[|xs|];
    assert [head] + (xs + [n]) == Inserted(s, |xs|, n);
    ListAddBetween(n, head.prev, head, s, |xs|);
  }

  /** `__list_del` between the neighbours of `s[k]`, which keeps its own links. */
  method ListDelBetween(prev: Node, next: Node, ghost s: seq<Node>, ghost k: nat)
    requires Ring(s) && 0 < k < |s| && prev == s[k].prev && next == s[k].next
    modifies next`prev, prev`next
    ensures Ring(Without(s, k)) && s[k].next == old(s[k].next) && s[k].prev == old(s[k].prev)
  {
    assert prev == s[k - 1] by { assert s[k - 1].next == s[Succ(k - 1, |s|)]; }
    assert next == s[Succ(k, |s|)];
    next.prev := prev;
    prev.next := next;
    ghost var r := Without(s, k);
    WithoutDistinct(s, k);
    forall j {:trigger r[j]} | 0 <= j < |r|
      ensures r[j].next == r[Succ(j, |r|)] && r[Succ(j, |r|)].prev == r[j]
    {
      if j != k - 1 {
        var i := if j < k then j else j + 1;
        WithoutAt(s, k, j);
        assert old(s[i].next) == s[Succ(i, |s|)] && old(s[Succ(i, |s|)].prev) == s[i];
      } else {
        assert r[j] == s[k - 1] && r[Succ(j, |r|)] == s[Succ(k, |s|)];
      }
    }
  }

  lemma WithoutAt(s: seq<Node>, k: nat, j: nat)
    requires 0 < k < |s| && j + 1 < |s| && j != k - 1
    ensures var r, i := Without(s, k), if j < k then j else j + 1;
            r[j] == s[i] && r[Succ(j, |r|)] == s[Succ(i, |s|)]
  {
  }

  lemma WithoutBehindHead(head: Node, xs: seq<Node>, k: nat)
    requires k < |xs|
    ensures Without([head] + xs, k + 1) == [head] + Without(xs, k) && ([head] + xs)[k + 1] == xs[k]
  {
  }

  /** `list_del`: also for the node next to the head and for the only element. */
  method ListDel(entry: Node, ghost head: Node, ghost xs: seq<Node>, ghost k: nat)
    requires List(head, xs) && k < |xs| && entry == xs[k]
    modifies entry.next`prev, entry.prev`next
    ensures List(head, Without(xs, k)) && entry.next == old(entry.next) && entry.prev == old(entry.prev)
  {
    WithoutBehindHead(head, xs, k);
    hide Ring, Without;
    ListDelBetween(entry.prev, entry.next, [head] + xs, k + 1);
  }

  /** `list_del_init`: the removed node is a list of its own. */
  method ListDelInit(entry: Node, ghost head: Node, ghost xs: seq<Node>, ghost k: nat)
    requires List(head, xs) && k < |xs| && entry == xs[k]
    modifies entry`next, entry`prev, entry.next`prev, entry.prev`next
    ensures List(head, Without(xs, k)) && Ring([entry])
  {
    WithoutBehindHead(head, xs, k);
    WithoutDistinct([head] + xs, k + 1);
    hide Ring, Without;
    ListDelBetween(entry.prev, entry.next, [head] + xs, k + 1);
    label unlinked:
    InitListHead(entry);
    RingUnchanged@unlinked([head] + Without(xs, k));
  }

  twostate lemma RingUnchanged(r: seq<Node>)
    requires old(Ring(r))
    requires forall n | n in r :: n.next == old(n.next) && n.prev == old(n.prev)
    ensures Ring(r)
  {
    forall j {:trigger r[j]} | 0 <= j < |r|
      ensures r[j].next == r[Succ(j, |r|)] && r[Succ(j, |r|)].prev == r[j]
    {
      assert old(r[j].next) == r[Succ(j, |r|)] && old(r[Succ(j, |r|)].prev) == r[j];
    }
  }

  /**
   * `list_replace`: the new node takes the old one's place in the circle, whether that is an
   * element, the head, or a self-linked node.
   */
  method ListReplace(o: Node, n: Node, ghost s: seq<Node>, ghost k: nat)
    requires Ring(s) && k < |s| && o == s[k] && n !in s
    modifies n`next, n`prev, o.next`prev, o.prev`next
    ensures Ring(s[k := n])
  {
    assert s[k].next == s[Succ(k, |s|)];
    ghost var p := if k > 0 then k - 1 else |s| - 1;
    assert s[p].next == s[Succ(p, |s|)] == s[k] && s[k].prev == s[p];
    n.next := o.next;
    n.next.prev := n;
    n.prev := o.prev;
    n.prev.next := n;
    ghost var r := s[k := n];
    ReplacedDistinct(s, k, n);
    forall j {:trigger r[j]} | 0 <= j < |r|
      ensures r[j].next == r[Succ(j, |r|)] && r[Succ(j, |r|)].prev == r[j]
    {
      assert old(s[j].next) == s[Succ(j, |s|)] && old(s[Succ(j, |s|)].prev) == s[j];
    }
  }

  lemma ReplacedDistinct(s: seq<Node>, k: nat, n: Node)
    requires Distinct(s) && k < |s| && n !in s
    ensures Distinct(s[k := n])
  {
  }

  /** The first step of a move inside one list. */
  method TakeOutOf(entry: Node, head: Node, ghost xs: seq<Node>, ghost k: nat)
    requires List(head, xs) && k < |xs| && entry == xs[k]
    modifies [head] + xs
    ensures List(head, Without(xs, k)) && entry != head && entry !in Without(xs, k)
    ensures entry in [head] + xs && head in [head] + xs && head.next in [head] + xs && head.prev in [head] + xs
  {
    Removable(head, xs, k);
    ListDel(entry, head, xs, k);
    ghost var r := [head] + Without(xs, k);
    Neighbours(r, 0);
    hide Ring;
    assert r[0] == head;
    assert forall n | n in r :: n in [head] + xs;
  }

  /** `list_move` inside one list: the entry becomes the first element. */
  method ListMove(entry: Node, head: Node, ghost xs: seq<Node>, ghost k: nat)
    requires List(head, xs) && k < |xs| && entry == xs[k]
    modifies [head] + xs
    ensures List(head, [entry] + Without(xs, k))
  {
    hide Ring;
    TakeOutOf(entry, head, xs, k);
    ListAdd(entry, head, Without(xs, k));
  }

  /** `list_move_tail` inside one list. */
  method ListMoveTail(entry: Node, head: Node, ghost xs: seq<Node>, ghost k: nat)
    requires List(head, xs) && k < |xs| && entry == xs[k]
    modifies [head] + xs
    ensures List(head, Without(xs, k) + [entry])
  {
    hide Ring;
    TakeOutOf(entry, head, xs, k);
    ListAddTail(entry, head, Without(xs, k));
  }

  lemma Removable(head: Node, xs: seq<Node>, k: nat)
    requires List(head, xs) && k < |xs|
    ensures xs[k] != head && xs[k] !in Without(xs, k)
    ensures xs[k].next in [head] + xs && xs[k].prev in [head] + xs
  {
    WithoutBehindHead(head, xs, k);
    Neighbours([head] + xs, k + 1);
    WithoutDistinct([head] + xs, k + 1);
    hide Ring, Without, Distinct;
    assert head in [head] + Without(xs, k);
    assert forall n | n in Without(xs, k) :: n in [head] + Without(xs, k);
  }

  ghost predicate Apart(h: Node, xs: seq<Node>, h': Node, ys: seq<Node>)
  {
    forall n | n in [h] + xs :: n !in [h'] + ys
  }

  /** `list_move` from one list to another. */
  method ListMoveAcross(entry: Node, head: Node, ghost xs: seq<Node>, ghost from: Node, ghost ys: seq<Node>, ghost k: nat)
    requires List(head, xs) && List(from, ys) && Apart(head, xs, from, ys) && k < |ys| && entry == ys[k]
    modifies [head] + xs, [from] + ys
    ensures List(head, [entry] + xs) && List(from, Without(ys, k))
  {
    TakeOut(entry, head, xs, from, ys, k);
    Neighbours([head] + xs, 0);
    hide Ring, Without;
    assert ([head] + xs)[0] == head && entry in [from] + ys;
    assert forall n | n in [from] + Without(ys, k) :: n != entry && n !in [head] + xs;
    label removed:
    ListAdd(entry, head, xs);
    RingUnchanged@removed([from] + Without(ys, k));
  }

  method ListMoveTailAcross(entry: Node, head: Node, ghost xs: seq<Node>, ghost from: Node, ghost ys: seq<Node>, ghost k: nat)
    requires List(head, xs) && List(from, ys) && Apart(head, xs, from, ys) && k < |ys| && entry == ys[k]
    modifies [head] + xs, [from] + ys
    ensures List(head, xs + [entry]) && List(from, Without(ys, k))
  {
    TakeOut(entry, head, xs, from, ys, k);
    Neighbours([head] + xs, 0);
    hide Ring, Without;
    assert ([head] + xs)[0] == head && entry in [from] + ys;
    assert forall n | n in [from] + Without(ys, k) :: n != entry && n !in [head] + xs;
    label removed:
    ListAddTail(entry, head, xs);
    RingUnchanged@removed([from] + Without(ys, k));
  }

  /** The first half of a move: the other list is not touched, and the entry is in neither. */
  method TakeOut(entry: Node, ghost head: Node, ghost xs: seq<Node>, ghost from: Node, ghost ys: seq<Node>, ghost k: nat)
    requires List(head, xs) && List(from, ys) && Apart(head, xs, from, ys) && k < |ys| && entry == ys[k]
    modifies [from] + ys
    ensures List(head, xs) && List(from, Without(ys, k))
    ensures entry != head && entry !in xs && Apart(head, xs, from, Without(ys, k))
    ensures entry != from && entry !in Without(ys, k)
  {
    Removable(from, ys, k);
    label start:
    ListDel(entry, from, ys, k);
    hide Ring;
    RingUnchanged@start([head] + xs);
    assert entry in [from] + ys;
    assert head in [head] + xs;
    assert forall n | n in xs :: n in [head] + xs;
    assert forall n | n in [from] + Without(ys, k) :: n in [from] + ys;
  }
}
