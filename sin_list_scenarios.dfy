/** Clients of the linked list that replay the package's own test scenarios
    and combine its operations. */
module LinkedListScenarios {
  import opened LinkedList

  /** Appending detached nodes holding vs, one by one, to a new list gives a
      list holding vs; GetElem(k) then finds vs[k - 1]. */
  method AppendAll<T>(vs: seq<T>) returns (list: SinHead<T>)
    ensures list.Valid() && list.Contents == vs && list.Len() == |vs|
    ensures fresh(list) && forall k :: 0 <= k < |list.Nodes| ==> fresh(list.Nodes[k])
  {
    list := new SinHead();
    var i := 0;
    while i < |vs|
      invariant 0 <= i <= |vs|
      invariant list.Valid() && list.Contents == vs[..i]
      invariant fresh(list) && forall k :: 0 <= k < |list.Nodes| ==> fresh(list.Nodes[k])
    {
      var node := new SinNode(vs[i]);
      list.Append(node);
      i := i + 1;
    }
  }

  /** Inserting after position i and then deleting position i + 1 restores
      the list's values. */
  method InsertThenDelete<T>(list: SinHead<T>, node: SinNode<T>, i: int)
    requires list.Valid() && node !in list.Nodes
    requires 0 <= i <= list.Len()
    modifies list, list.Nodes, node
    ensures list.Valid() && list.Contents == old(list.Contents)
  {
    var err := list.Insert(node, i);
    err := list.Delete(i + 1);
    DeleteUndoesInsert(old(list.Contents), node.Val, i);
  }

  /** Three appends: the length is 3 and the third node holds 30. */
  method AppendScenario() returns (n: int, last: int)
    ensures n == 3 && last == 30
  {
    var list := AppendAll([10, 20, 30]);
    n := list.Len();
    var node, _ := list.GetElem(3);
    last := node.Val;
  }

  /** Inserting 99 after position 2 of 1, 2, 3 puts it at position 3. */
  method InsertScenario() returns (err: Outcome, at3: int, n: int)
    ensures err == Pass && at3 == 99 && n == 4
  {
    var list := AppendAll([1, 2, 3]);
    var node := new SinNode(99);
    err := list.Insert(node, 2);
    var got, _ := list.GetElem(3);
    at3 := got.Val;
    n := list.Len();
  }

  /** Deleting position 2 of 1, 2, 3 moves 3 to position 2. */
  method DeleteScenario() returns (err: Outcome, at2: int, n: int)
    ensures err == Pass && at2 == 3 && n == 2
  {
    var list := AppendAll([1, 2, 3]);
    err := list.Delete(2);
    var got, _ := list.GetElem(2);
    at2 := got.Val;
    n := list.Len();
  }

  /** The node Delete unlinked keeps its own link, here null, so it can be
      appended again. */
  method DeletedNodeScenario() returns (err: Outcome, at2: int, n: int)
    ensures err == Pass && at2 == 2 && n == 2
  {
    var list := AppendAll([1, 2]);
    var b, _ := list.GetElem(2);
    err := list.Delete(2);
    list.Append(b);
    var got, _ := list.GetElem(2);
    at2 := got.Val;
    n := list.Len();
  }

  /** Position 5 of a one-node list is reported, as is every failed call
      on an empty list. */
  method OutOfRangeScenario() returns (got: SinNode?<int>, err: Outcome, del: Outcome, ins: Outcome)
    ensures got == null && err == Fail(InvalidIndex)
    ensures del == Fail(InvalidIndex) && ins == Fail(IndexOutOfRange)
  {
    var list := AppendAll([1]);
    got, err := list.GetElem(5);
    var empty := new SinHead<int>();
    del := empty.Delete(1);
    var node := new SinNode(7);
    ins := empty.Insert(node, 1);
  }

  /** A node that Insert refused is left detached, so it can still be
      appended. */
  method RefusedNodeScenario() returns (ins: Outcome, first: int, n: int)
    ensures ins == Fail(IndexOutOfRange) && first == 7 && n == 1
  {
    var list := new SinHead<int>();
    var node := new SinNode(7);
    ins := list.Insert(node, 1);
    list.Append(node);
    var head, _ := list.GetElem(1);
    first := head.Val;
    n := list.Len();
  }
}
