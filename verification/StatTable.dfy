/** The reception statistics kept in a circular list (app/vam/cv_vam_rcp.c). */
module StatTable {
  import opened CircularList

  type Pid = seq<int>

  datatype Row = Row(pid: Pid, cnt: nat)

  /** What the nodes of the list say. */
  ghost function Rows(nodes: seq<Node>): (rows: seq<Row>)
    reads nodes
    ensures |rows| == |nodes|
  {
    seq(|nodes|, i requires 0 <= i < |nodes| reads nodes => Row(nodes[i].pid, nodes[i].rxCnt))
  }

  /** Each pid as often as its row counts. */
  function Tally(rows: seq<Row>): multiset<Pid>
  {
    if rows == [] then multiset{} else multiset{}[rows[0].pid := rows[0].cnt] + Tally(rows[1..])
  }

  predicate PidsDistinct(rows: seq<Row>)
  {
    forall i, j | 0 <= i < j < |rows| :: rows[i].pid != rows[j].pid
  }

  lemma {:induction false} TallyAbsent(rows: seq<Row>, pid: Pid)
    requires forall i | 0 <= i < |rows| :: rows[i].pid != pid
    ensures Tally(rows)[pid] == 0
  {
    if rows != [] {
      TallyAbsent(rows[1..], pid);
    }
  }

  /** With distinct pids a row's count is its pid's multiplicity. */
  lemma {:induction false} TallyAt(rows: seq<Row>, k: nat)
    requires PidsDistinct(rows) && k < |rows|
    ensures Tally(rows)[rows[k].pid] == rows[k].cnt
  {
    if k == 0 {
      TallyAbsent(rows[1..], rows[0].pid);
    } else {
      TallyAt(rows[1..], k - 1);
    }
  }

  lemma {:induction false} TallyIncrement(rows: seq<Row>, k: nat)
    requires k < |rows|
    ensures Tally(rows[k := rows[k].(cnt := rows[k].cnt + 1)]) == Tally(rows) + multiset{rows[k].pid}
  {
    var rows' := rows[k := rows[k].(cnt := rows[k].cnt + 1)];
    if k == 0 {
      assert rows'[1..] == rows[1..];
    } else {
      TallyIncrement(rows[1..], k - 1);
      assert rows'[1..] == rows[1..][k - 1 := rows'[k]];
    }
  }

  lemma PidsDistinctTail(rows: seq<Row>)
    requires PidsDistinct(rows) && rows != []
    ensures PidsDistinct(rows[1..])
  {
  }

  /** Unlinking at the head: the links change, what the nodes say does not. */
  method TakeFirst(head: Node, ghost xs: seq<Node>) returns (pos: Node)
    requires List(head, xs) && xs != []
    modifies [head] + xs
    ensures pos == xs[0] && List(head, xs[1..])
    ensures Rows(xs) == old(Rows(xs))
  {
    HeadNeighbours(head, xs);
    Removable(head, xs, 0);
    assert Without(xs, 0) == xs[1..];
    hide List, Without;
    pos := head.next;
    ListDel(pos, head, xs, 0);
  }

  class Table {
    const head: Node
    ghost var nodes: seq<Node>

    ghost predicate Valid()
      reads this, head, nodes
    {
      List(head, nodes) && PidsDistinct(Rows(nodes))
    }

    /** How often each pid was counted since the list was last emptied. */
    ghost function Counted(): multiset<Pid>
      reads this, nodes
    {
      Tally(Rows(nodes))
    }

    ghost function Repr(): set<Node>
      reads this
    {
      {head} + set n | n in nodes
    }

    /** `init_test_list`. */
    constructor ()
      ensures Valid() && fresh(head) && nodes == []
    {
      head := new Node([]);
      nodes := [];
    }

    /** The loop of `test_find_sta`. */
    method Search(pid: Pid) returns (sta: Node?, ghost k: nat)
      requires Valid()
      ensures if sta != null then k < |nodes| && sta == nodes[k] && sta.pid == pid
              else forall i | 0 <= i < |nodes| :: nodes[i].pid != pid
    {
      hide List, PidsDistinct;
      sta := null;
      k := 0;
      HeadNeighbours(head, nodes);
      var pos := head.next;
      while pos != head
        invariant 0 <= k <= |nodes| && pos == if k < |nodes| then nodes[k] else head
        invariant forall i | 0 <= i < k :: nodes[i].pid != pid
        decreases |nodes| - k
      {
        if pos.pid == pid {
          sta := pos;
          return;
        }
        NextElement(head, nodes, k);
        k := k + 1;
        pos := pos.next;
      }
      if k < |nodes| {
        NextElement(head, nodes, k);
      }
    }

    method AddNew(pid: Pid) returns (sta: Node)
      requires Valid() && forall i | 0 <= i < |nodes| :: nodes[i].pid != pid
      modifies this`nodes, head`next, head.next`prev
      ensures Valid() && Counted() == old(Counted())
      ensures fresh(sta) && nodes == [sta] + old(nodes) && sta.pid == pid && sta.rxCnt == 0
    {
      ghost var rows := Rows(nodes);
      NewRow(rows, pid);
      hide Ring, PidsDistinct, Tally;
      sta := new Node(pid);
      assert List(head, nodes);
      ListAdd(sta, head, nodes);
      nodes := [sta] + nodes;
      assert Rows(nodes) == [Row(pid, 0)] + rows;
    }

    /** `test_find_sta`: the node for the pid, a new one in front if there is none; null when malloc fails. */
    method FindSta(pid: Pid, mallocOk: bool) returns (sta: Node?, ghost k: nat)
      requires Valid()
      modifies this`nodes, head`next, head.next`prev
      ensures Valid() && Counted() == old(Counted())
      ensures (sta == null) == (!mallocOk && forall i | 0 <= i < |old(nodes)| :: old(nodes[i].pid) != pid)
      ensures sta != null ==> k < |nodes| && sta == nodes[k] && sta.pid == pid
      ensures if sta == null || sta in old(nodes) then nodes == old(nodes)
              else fresh(sta) && nodes == [sta] + old(nodes) && sta.rxCnt == 0
    {
      sta, k := Search(pid);
      if sta == null && mallocOk {
        sta := AddNew(pid);
        k := 0;
      }
    }

    /**
     * What `rcp_parse_bsm` does with a message: find its node, store the distance, add one. `ok` is
     * false when there is no node and no memory for one; the C code then follows a null pointer.
     */
    method CountMessage(pid: Pid, distance: real, mallocOk: bool) returns (ok: bool)
      requires Valid()
      modifies this`nodes, Repr()
      ensures ok == (mallocOk || exists i :: 0 <= i < |old(nodes)| && old(nodes[i].pid) == pid)
      ensures Valid() && Counted() == old(Counted()) + if ok then multiset{pid} else multiset{}
      ensures ok ==> exists n :: n in nodes && n.pid == pid && n.distance == distance
      ensures forall n | n in old(nodes) && n.pid != pid :: n.distance == old(n.distance)
      ensures fresh(Repr() - old(Repr()))
    {
      HeadNeighbours(head, nodes);
      var sta, k := FindSta(pid, mallocOk);
      if sta == null {
        return false;
      }
      hide Ring, List, PidsDistinct, Counted;
      CountOn(sta, k, distance);
      ok := true;
    }

    method CountOn(sta: Node, ghost k: nat, distance: real)
      requires Valid() && k < |nodes| && sta == nodes[k]
      modifies sta`distance, sta`rxCnt
      ensures Valid() && Counted() == old(Counted()) + multiset{sta.pid}
      ensures sta.distance == distance
    {
      ghost var rows := Rows(nodes);
      assert forall j | 0 <= j < |nodes| && j != k :: rows[j].pid != rows[k].pid;
      hide Ring, PidsDistinct;
      label counting:
      sta.distance := distance;
      sta.rxCnt := sta.rxCnt + 1;
      assert Rows(nodes) == rows[k := rows[k].(cnt := rows[k].cnt + 1)];
      TallyIncrement(rows, k);
      RingUnchanged@counting([head] + nodes);
    }

    /** One turn of the loop of `empty_test_list`. */
    method UnlinkFirst() returns (pos: Node)
      requires Valid() && head.next != head
      modifies this`nodes, Repr()
      ensures old(nodes) != [] && pos == old(nodes)[0]
      ensures Valid() && nodes == old(nodes)[1..]
    {
      ghost var rows := Rows(nodes);
      hide List, PidsDistinct;
      HeadNeighbours(head, nodes);
      pos := TakeFirst(head, nodes);
      nodes := nodes[1..];
      assert Rows(nodes) == Rows(old(nodes))[1..];
      PidsDistinctTail(rows);
    }

    /** `empty_test_list`: unlinks and frees the nodes one by one, from the front. */
    method Empty() returns (ghost freed: seq<Node>)
      requires Valid()
      modifies this`nodes, Repr()
      ensures Valid() && nodes == [] && Counted() == multiset{}
      ensures freed == old(nodes)
    {
      hide List, PidsDistinct;
      freed := [];
      while head.next != head
        invariant Valid() && freed + nodes == old(nodes)
        invariant Repr() <= old(Repr())
        decreases |nodes|
      {
        var pos := UnlinkFirst();
        freed := freed + [pos];
      }
      HeadNeighbours(head, nodes);
    }
  }

  lemma NewRow(rows: seq<Row>, pid: Pid)
    requires PidsDistinct(rows) && forall i | 0 <= i < |rows| :: rows[i].pid != pid
    ensures Tally([Row(pid, 0)] + rows) == Tally(rows) && PidsDistinct([Row(pid, 0)] + rows)
  {
    assert ([Row(pid, 0)] + rows)[1..] == rows;
  }

  /**
   * Over a whole run since the last emptying: the table counts every message once, under its pid,
   * and each pid has one node.
   */
  method CountAll(table: Table, pids: seq<Pid>, distances: seq<real>)
    requires |distances| == |pids| && table.Valid() && table.nodes == []
    modifies table`nodes, table.head
    ensures table.Valid() && table.Counted() == multiset(pids)
    ensures forall n | n in table.nodes :: n.rxCnt == multiset(pids)[n.pid]
  {
    hide Ring, List;
    var i := 0;
    while i < |pids|
      invariant i <= |pids| && table.Valid() && table.Counted() == multiset(pids[..i])
      invariant fresh(table.Repr() - {table.head})
    {
      var ok := table.CountMessage(pids[i], distances[i], true);
      assert pids[..i + 1] == pids[..i] + [pids[i]];
      i := i + 1;
    }
    assert pids[..i] == pids;
    forall k | 0 <= k < |table.nodes|
      ensures table.nodes[k].rxCnt == multiset(pids)[table.nodes[k].pid]
    {
      TallyAt(Rows(table.nodes), k);
    }
  }
}
