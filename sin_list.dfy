/** A singly linked list reached through a head record that counts its nodes.
    Positions are 1-based: position k holds Nodes[k-1]. */
module LinkedList {

  /** The three error values the list can report; a Go `nil` error is `Pass`. */
  datatype ListError = IndexOutOfRange | InvalidIndex | NoDataToDelete

  datatype Outcome = Pass | Fail(error: ListError)

  /** Each node's Next is the one after it, and the last one's is null. */
  ghost predicate Linked<T>(ns: seq<SinNode<T>>)
    reads ns`Next
  {
    && (forall k :: 0 <= k < |ns| - 1 ==> ns[k].Next == ns[k + 1])
    && (ns != [] ==> ns[|ns| - 1].Next == null)
  }

  ghost predicate Distinct<T>(ns: seq<SinNode<T>>)
  {
    forall j, k :: 0 <= j < k < |ns| ==> ns[j] != ns[k]
  }

  /** The nodes hold the values, position by position. */
  ghost predicate Holds<T>(ns: seq<SinNode<T>>, vs: seq<T>)
    reads ns`Val
  {
    |ns| == |vs| && forall k :: 0 <= k < |ns| ==> ns[k].Val == vs[k]
  }

  /** A chain whose node i - 1 (if any) has been pointed at `node`, and
      `node` at what followed, is the chain with `node` at index i. */
  lemma LinkedWith<T>(ns: seq<SinNode<T>>, node: SinNode<T>, i: int)
    requires 0 <= i <= |ns|
    requires forall k :: 0 <= k < |ns| - 1 && k != i - 1 ==> ns[k].Next == ns[k + 1]
    requires i < |ns| ==> ns[|ns| - 1].Next == null
    requires i > 0 ==> ns[i - 1].Next == node
    requires node.Next == if i < |ns| then ns[i] else null
    ensures Linked(ns[..i] + [node] + ns[i..])
  {
  }

  /** A chain whose node i - 1 has been pointed past node i is the chain
      without index i. */
  lemma LinkedWithout<T>(ns: seq<SinNode<T>>, i: int)
    requires 0 < i < |ns|
    requires forall k :: 0 <= k < |ns| - 1 && k != i - 1 ==> ns[k].Next == ns[k + 1]
    requires ns[|ns| - 1].Next == null
    requires ns[i - 1].Next == if i + 1 < |ns| then ns[i + 1] else null
    ensures Linked(ns[..i] + ns[i + 1..])
  {
  }

  /** A node not in a chain of distinct nodes can join it anywhere. */
  lemma DistinctWith<T>(ns: seq<SinNode<T>>, node: SinNode<T>, i: int)
    requires Distinct(ns) && node !in ns && 0 <= i <= |ns|
    ensures Distinct(ns[..i] + [node] + ns[i..])
  {
  }

  /** Dropping one node keeps the others distinct. */
  lemma DistinctWithout<T>(ns: seq<SinNode<T>>, i: int)
    requires Distinct(ns) && 0 <= i < |ns|
    ensures Distinct(ns[..i] + ns[i + 1..])
  {
  }

  /** Values stay paired with their nodes when a node joins at index i. */
  lemma HoldsWith<T>(ns: seq<SinNode<T>>, vs: seq<T>, node: SinNode<T>, i: int)
    requires Holds(ns, vs) && 0 <= i <= |ns|
    ensures Holds(ns[..i] + [node] + ns[i..], vs[..i] + [node.Val] + vs[i..])
  {
  }

  /** Values stay paired with their nodes when the node at index i leaves. */
  lemma HoldsWithout<T>(ns: seq<SinNode<T>>, vs: seq<T>, i: int)
    requires Holds(ns, vs) && 0 <= i < |ns|
    ensures Holds(ns[..i] + ns[i + 1..], vs[..i] + vs[i + 1..])
  {
  }

  /** Deleting position i + 1 undoes inserting after position i. */
  lemma DeleteUndoesInsert<T>(s: seq<T>, v: T, i: int)
    requires 0 <= i <= |s|
    ensures var t := s[..i] + [v] + s[i..]; t[i] == v && t[..i] + t[i + 1..] == s
  {
  }

  /** A chain without its first node is still a chain, and that node points
      at what is now the first. */
  lemma LinkedTail<T>(ns: seq<SinNode<T>>)
    requires Linked(ns) && ns != []
    ensures Linked(ns[1..])
    ensures ns[0].Next == if |ns| > 1 then ns[1] else null
  {
  }

  class SinNode<T> {
    var Val: T
    var Next: SinNode?<T>

    /** A detached node holding `val`. */
    constructor (val: T)
      ensures Val == val && Next == null
    {
      Val := val;
      Next := null;
    }

    /** The value this node holds. */
    function Value(): (v: T)
      reads this
    {
      Val
    }
  }

  class SinHead<T> {
    var len: int
    var Next: SinNode?<T>

    // abstract view: the chain of nodes from Next, and the values they hold
    ghost var Nodes: seq<SinNode<T>>
    ghost var Contents: seq<T>

    /** The chain starting at Next visits exactly Nodes, in order, without
        repeating a node, ends in null, and len counts it. */
    ghost predicate Valid()
      reads this, Nodes
    {
      && len == |Nodes|
      && Next == (if Nodes == [] then null else Nodes[0])
      && Linked(Nodes)
      && Distinct(Nodes)
      && Holds(Nodes, Contents)
    }

    /** An empty list: no first node and a count of zero. */
    constructor ()
      ensures Valid()
      ensures Contents == [] && Nodes == []
      ensures len == 0 && Next == null
    {
      len := 0;
      Next := null;
      Nodes := [];
      Contents := [];
    }

    /** The stored count is the number of values in the list. */
    function Len(): (n: int)
      reads this, Nodes
      requires Valid()
      ensures n == |Contents| && n >= 0
    {
      len
    }

    /** Links `node` behind the last node, walking there from the first one;
        an empty list takes it as its first node without walking. The node's
        own Next is not cleared, so it must arrive detached. */
    method Append(node: SinNode<T>)
      requires Valid()
      requires node !in Nodes && node.Next == null
      modifies this, Nodes`Next
      ensures Valid()
      ensures Nodes == old(Nodes) + [node]
      ensures Contents == old(Contents) + [node.Val]
      ensures len == old(len) + 1
    {
      if len == 0 {
        Next := node;
        len := len + 1;
        Nodes := [node];
        Contents := [node.Val];
        return;
      }

      var tar := Next;
      var i := 1;
      while i < len
        invariant 1 <= i <= len
        invariant tar == Nodes[i - 1]
      {
        tar := tar.Next;
        i := i + 1;
      }
      ghost var ns := Nodes;
      tar.Next := node;
      len := len + 1;
      Nodes := ns + [node];
      Contents := Contents + [node.Val];
      forall k | 0 <= k < |ns| - 1
        ensures ns[k].Next == ns[k + 1]
      {
        assert ns[k] != tar;
      }
      LinkedWith(ns, node, |ns|);
      DistinctWith(ns, node, |ns|);
      assert ns[..|ns|] == ns && ns[|ns|..] == [];
    }

    /** Splices `node` in after position i, so that it lands at position
        i + 1; i == 0 makes it the first node. An i beyond the length is
        reported and changes nothing. */
    method Insert(node: SinNode<T>, i: int) returns (err: Outcome)
      requires Valid()
      requires node !in Nodes
      requires i >= 0
      modifies this, Nodes`Next, node`Next
      ensures Valid()
      ensures err == (if i > old(len) then Fail(IndexOutOfRange) else Pass)
      ensures err.Fail? ==> Nodes == old(Nodes) && Contents == old(Contents) && len == old(len)
      ensures err.Fail? ==> Next == old(Next) && node.Next == old(node.Next)
      ensures err.Pass? ==>
                && Nodes == old(Nodes)[..i] + [node] + old(Nodes)[i..]
                && Contents == old(Contents)[..i] + [node.Val] + old(Contents)[i..]
                && len == old(len) + 1
    {
      if i > len {
        return Fail(IndexOutOfRange);
      }

      if i == 0 {
        PushFront(node);
        assert old(Nodes)[..0] + [node] + old(Nodes)[0..] == [node] + old(Nodes);
        assert old(Contents)[..0] + [node.Val] + old(Contents)[0..] == [node.Val] + old(Contents);
        return Pass;
      }
      var tar := Next;
      var j := 1;
      while j < i
        invariant 1 <= j <= i
        invariant tar == Nodes[j - 1]
      {
        tar := tar.Next;
        j := j + 1;
      }
      LinkAfter(tar, node, i);
      return Pass;
    }

    /** Makes `node` the first node: it takes over the head's link and the
        head points at it. */
    method PushFront(node: SinNode<T>)
      requires Valid()
      requires node !in Nodes
      modifies this, node`Next
      ensures Valid()
      ensures Nodes == [node] + old(Nodes) && Contents == [node.Val] + old(Contents)
      ensures len == old(len) + 1
    {
      ghost var ns, vs := Nodes, Contents;
      node.Next := Next;
      Next := node;
      len := len + 1;
      Nodes := [node] + ns;
      Contents := [node.Val] + vs;
      HoldsWith(ns, vs, node, 0);
      assert vs[..0] == [] && vs[0..] == vs;
      LinkedWith(ns, node, 0);
      DistinctWith(ns, node, 0);
      assert ns[..0] == [] && ns[0..] == ns;
    }

    /** Links `node` in behind `tar`, the node at position i, so that it
        becomes the node at position i + 1. */
    method LinkAfter(tar: SinNode<T>, node: SinNode<T>, i: int)
      requires Valid()
      requires node !in Nodes
      requires 1 <= i <= len && tar == Nodes[i - 1]
      modifies this, tar`Next, node`Next
      ensures Valid()
      ensures Nodes == old(Nodes)[..i] + [node] + old(Nodes)[i..]
      ensures Contents == old(Contents)[..i] + [node.Val] + old(Contents)[i..]
      ensures len == old(len) + 1
    {
      ghost var ns, vs := Nodes, Contents;
      node.Next := tar.Next;
      tar.Next := node;
      len := len + 1;
      Nodes := ns[..i] + [node] + ns[i..];
      Contents := vs[..i] + [node.Val] + vs[i..];
      HoldsWith(ns, vs, node, i);
      forall k | 0 <= k < |ns| - 1 && k != i - 1
        ensures ns[k].Next == ns[k + 1]
      {
        assert ns[k] != tar;
      }
      LinkedWith(ns, node, i);
      DistinctWith(ns, node, i);
    }

    /** Unlinks the first node by pointing the head at its successor; the
        nodes themselves are untouched. */
    method RemoveFirst()
      requires Valid() && len > 0
      modifies this
      ensures Valid()
      ensures Nodes == old(Nodes)[1..] && Contents == old(Contents)[1..] && len == old(len) - 1
    {
      ghost var ns, vs := Nodes, Contents;
      Next := Next.Next;
      len := len - 1;
      Nodes := ns[1..];
      Contents := vs[1..];
      LinkedTail(ns);
      DistinctWithout(ns, 0);
      HoldsWithout(ns, vs, 0);
    }

    /** Unlinks the node at position i by pointing its predecessor (or the
        head, for i == 1) at its successor. An i outside 1..len is reported
        and changes nothing. */
    method Delete(i: int) returns (err: Outcome)
      requires Valid()
      modifies this, Nodes`Next
      ensures Valid()
      ensures err == (if i <= 0 || i > old(len) then Fail(InvalidIndex) else Pass)
      ensures err.Fail? ==> Nodes == old(Nodes) && Contents == old(Contents) && len == old(len)
      ensures err.Pass? ==>
                && Nodes == old(Nodes)[..i - 1] + old(Nodes)[i..]
                && Contents == old(Contents)[..i - 1] + old(Contents)[i..]
                && len == old(len) - 1
      ensures err.Pass? ==> old(Nodes)[i - 1].Next == old(Nodes[i - 1].Next)
    {
      if i <= 0 || i > len {
        return Fail(InvalidIndex);
      }
      // the separate "no data to delete" answer for an empty list is never
      // reached: an empty list has already failed the index test
      assert len != 0;

      if i == 1 {
        RemoveFirst();
        assert old(Nodes)[..0] + old(Nodes)[1..] == old(Nodes)[1..];
        assert old(Contents)[..0] + old(Contents)[1..] == old(Contents)[1..];
        return Pass;
      }
      var prev: SinNode?<T> := null;
      var tar := Next;
      var j := 1;
      while j < i
        invariant 1 <= j <= i
        invariant tar == Nodes[j - 1]
        invariant j > 1 ==> prev == Nodes[j - 2]
      {
        prev := tar;
        tar := tar.Next;
        j := j + 1;
      }
      UnlinkAfter(prev, tar, i);
      return Pass;
    }

    /** Unlinks `tar`, the node at position i, by pointing `prev`, the node
        before it, at its successor; `tar` keeps its own link. */
    method UnlinkAfter(prev: SinNode<T>, tar: SinNode<T>, i: int)
      requires Valid()
      requires 2 <= i <= len && prev == Nodes[i - 2] && tar == Nodes[i - 1]
      modifies this, prev`Next
      ensures Valid()
      ensures Nodes == old(Nodes)[..i - 1] + old(Nodes)[i..]
      ensures Contents == old(Contents)[..i - 1] + old(Contents)[i..]
      ensures len == old(len) - 1
    {
      ghost var ns, vs := Nodes, Contents;
      prev.Next := tar.Next;
      len := len - 1;
      Nodes := ns[..i - 1] + ns[i..];
      Contents := vs[..i - 1] + vs[i..];
      HoldsWithout(ns, vs, i - 1);
      forall k | 0 <= k < |ns| - 1 && k != i - 2
        ensures ns[k].Next == ns[k + 1]
      {
        assert ns[k] != prev;
      }
      LinkedWithout(ns, i - 1);
      DistinctWithout(ns, i - 1);
    }

    /** The node at position i, found by walking from the first node; an i
        outside 1..len yields null and an error. Nothing is changed. */
    method GetElem(i: int) returns (node: SinNode?<T>, err: Outcome)
      requires Valid()
      ensures err == (if i <= 0 || i > len then Fail(InvalidIndex) else Pass)
      ensures err.Fail? ==> node == null
      ensures err.Pass? ==> node == Nodes[i - 1] && node.Value() == Contents[i - 1]
    {
      if i <= 0 || i > len {
        return null, Fail(InvalidIndex);
      }
      var tar := Next;
      var j := 1;
      while j < i
        invariant 1 <= j <= i
        invariant tar == Nodes[j - 1]
      {
        tar := tar.Next;
        j := j + 1;
      }
      return tar, Pass;
    }
  }
}
