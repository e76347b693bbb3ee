/** A worker's connection list in memory: append by walking to the tail, removal at the head.
Each operation is one critical section of load_balancer.c. */
module ConnQueue {

  /** struct http_connection with the address that follows it. Only `next` is ever rewritten. */
  class Connection {
    const fd: int
    const addr: seq<bv8>
    var next: Connection?

    constructor (fd: int, addr: seq<bv8>)
      ensures this.fd == fd && this.addr == addr && next == null
    {
      this.fd, this.addr, this.next := fd, addr, null;
    }
  }

  datatype Conn = Conn(fd: int, addr: seq<bv8>)

  function Value(c: Connection): Conn {
    Conn(c.fd, c.addr)
  }

  function Values(s: seq<Connection>): seq<Conn> {
    seq(|s|, k requires 0 <= k < |s| => Value(s[k]))
  }

  function At(s: seq<Connection>, k: nat): Connection? {
    if k < |s| then s[k] else null
  }

  ghost function Nodes(s: seq<Connection>): set<Connection> {
    set c <- s
  }

  class Worker {
    var next: Connection?
    // the nodes of the list, and the nodes that have been freed
    ghost var spine: seq<Connection>
    ghost var freed: set<Connection>

    /** The list is acyclic, ends in null, and holds no freed node. */
    ghost predicate Valid()
      reads this, spine
    {
      && next == At(spine, 0)
      && (forall k {:trigger spine[k]} :: 0 <= k < |spine| ==> spine[k].next == At(spine, k + 1))
      && (forall j, k :: 0 <= j < k < |spine| ==> spine[j] != spine[k])
      && (forall k :: 0 <= k < |spine| ==> spine[k] !in freed)
    }

    /** The abstract queue. */
    ghost function Contents(): seq<Conn>
      reads this
    {
      Values(spine)
    }

    constructor ()
      ensures Valid() && spine == [] && freed == {}
    {
      next, spine, freed := null, [], {};
    }

    method Push(conn: Connection)
      requires Valid() && conn.next == null && conn !in spine && conn !in freed
      modifies this, spine
      ensures Valid() && spine == old(spine) + [conn] && freed == old(freed)
      ensures Contents() == old(Contents()) + [Value(conn)]
    {
      if next != null {
        var tail := next;
        ghost var k := 0;
        while tail.next != null
          invariant 0 <= k < |spine| && tail == spine[k]
          decreases |spine| - k
        {
          tail := tail.next;
          k := k + 1;
        }
        assert k == |spine| - 1;
        tail.next := conn;
      } else {
        next := conn;
      }
      spine := spine + [conn];
    }

    method Pop() returns (conn: Connection?)
      requires Valid()
      modifies `next, `spine
      ensures Valid()
      ensures conn == null <==> old(spine) == []
      ensures conn == null ==> spine == []
      ensures conn != null ==> old(spine) == [conn] + spine && conn !in spine && conn !in freed
      ensures conn != null ==> old(Contents()) == [Value(conn)] + Contents()
    {
      if next == null {
        return null;
      }
      conn := next;
      next := conn.next;
      spine := spine[1..];
    }

    /** After its connection has been handed to the http server. */
    method Free(conn: Connection)
      requires Valid() && conn !in freed && conn !in spine
      modifies `freed
      ensures Valid() && freed == old(freed) + {conn}
    {
      freed := freed + {conn};
    }

    /** One round of worker_on_ev: take a connection off the list, serve it, free it. */
    method ServeOne() returns (served: bool, conn: Conn)
      requires Valid()
      modifies this
      ensures Valid() && (served <==> old(spine) != [])
      ensures !served ==> unchanged(this)
      ensures served ==> var first := old(spine)[0];
        && spine == old(spine)[1..] && freed == old(freed) + {first}
        && conn == Value(first) && conn.fd == first.fd && conn.addr == first.addr
    {
      var node := Pop();
      if node == null {
        return false, Conn(0, []);
      }
      served, conn := true, Conn(node.fd, node.addr);
      Free(node);
    }

    /** worker_on_ev, left alone: everything in the list is served in order and freed once. */
    method OnEvent() returns (served: seq<Conn>)
      requires Valid()
      modifies this
      ensures Valid() && spine == [] && served == old(Contents()) && |served| == |old(spine)|
      ensures forall k :: 0 <= k < |served| ==> served[k].fd == old(spine)[k].fd && served[k].addr == old(spine)[k].addr
      ensures freed == old(freed) + Nodes(old(spine))
    {
      ghost var all, freed0 := spine, freed;
      ghost var gone: seq<Connection> := [];
      served := [];
      assert all == gone + spine;
      var more := true;
      while more
        invariant Valid() && all == gone + spine && served == Values(gone)
        invariant freed == freed0 + Nodes(gone)
        invariant !more ==> spine == []
        decreases |spine|, more
      {
        ghost var rest := spine;
        var conn;
        more, conn := ServeOne();
        if more {
          MoveOne(gone, rest);
          gone := gone + [rest[0]];
          served := served + [conn];
        }
      }
      assert gone == all;
    }
  }

  lemma MoveOne(gone: seq<Connection>, rest: seq<Connection>)
    requires rest != []
    ensures var gone1 := gone + [rest[0]];
      && gone + rest == gone1 + rest[1..] && Nodes(gone1) == Nodes(gone) + {rest[0]}
      && Values(gone1) == Values(gone) + [Value(rest[0])]
  {}
}
