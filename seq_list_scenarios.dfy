/** Clients of the sequential list that replay the package's own test
    scenarios and combine its operations. */
module SequentialListScenarios {
  import opened SequentialList

  /** Appending vs one by one to a new list of capacity c leaves exactly vs
      in the slice, with Cap the least c * 2^m that holds them. */
  method AppendAll<T>(c: int, zero: T, vs: seq<T>) returns (sl: SeqList<T>)
    requires c > 0
    ensures sl.Valid() && sl.Data == vs && sl.Elements() == vs && sl.zero == zero
    ensures sl.Cap == CapAfter(c, |vs|) == Doubled(c, LeastDoublings(c, |vs|))
    ensures fresh(sl)
  {
    sl := new SeqList(c, zero);
    var i := 0;
    while i < |vs|
      invariant 0 <= i <= |vs|
      invariant sl.Valid() && sl.Len == i && sl.Data == vs[..i] && sl.zero == zero
      invariant sl.Cap == CapAfter(c, i)
      invariant fresh(sl)
    {
      sl.Append(vs[i]);
      i := i + 1;
    }
    assert vs[..i] == vs;
    CapAfterIsLeastCover(c, |vs|);
  }

  /** Capacity 2: stays 2 over two appends, 4 after the third, 8 after the
      fifth, and the slice holds the five values. */
  method GrowthScenario() returns (caps: seq<int>, data: seq<string>)
    ensures caps == [2, 4, 8] && data == ["a", "b", "c", "d", "e"]
  {
    var sl := new SeqList<string>(2, "");
    sl.Append("a");
    sl.Append("b");
    caps := [sl.Cap];
    sl.Append("c");
    caps := caps + [sl.Cap];
    sl.Append("d");
    sl.Append("e");
    caps := caps + [sl.Cap];
    data := sl.Data;
  }

  /** Removing index 1 of 10, 20, 30, 40 returns 20 and leaves the slice
      10, 30, 40, 0 with Len 3 and Cap 4. */
  method RemoveScenario() returns (x: int, ok: bool, data: seq<int>, n: int, cap: int)
    ensures x == 20 && ok && data == [10, 30, 40, 0] && n == 3 && cap == 4
  {
    var sl := AppendAll(4, 0, [10, 20, 30, 40]);
    x, ok := sl.Remove(1);
    data, n, cap := sl.Data, sl.Len, sl.Cap;
  }

  /** Removing the first or the last of 10, 20, 30, 40 returns it and zeroes
      the slot freed at the end. */
  method RemoveBoundaryScenario() returns (first: (int, bool), firstData: seq<int>, last: (int, bool), lastData: seq<int>)
    ensures first == (10, true) && firstData == [20, 30, 40, 0]
    ensures last == (40, true) && lastData == [10, 20, 30, 0]
  {
    var sl1 := AppendAll(4, 0, [10, 20, 30, 40]);
    var x1, ok1 := sl1.Remove(0);
    first, firstData := (x1, ok1), sl1.Data;
    var sl2 := AppendAll(4, 0, [10, 20, 30, 40]);
    var x2, ok2 := sl2.Remove(3);
    last, lastData := (x2, ok2), sl2.Data;
  }

  /** On 10, 20, 30, 40, Remove(-1) and then Remove(4) each return the zero
      value and false, and Len stays 4 after each. */
  method RemoveOutOfRangeScenario() returns (below: (int, bool), lenAfterBelow: int, above: (int, bool), lenAfterAbove: int)
    ensures below == (0, false) && lenAfterBelow == 4
    ensures above == (0, false) && lenAfterAbove == 4
  {
    var sl := AppendAll(4, 0, [10, 20, 30, 40]);
    var x1, ok1 := sl.Remove(-1);
    below, lenAfterBelow := (x1, ok1), sl.Len;
    var x2, ok2 := sl.Remove(4);
    above, lenAfterAbove := (x2, ok2), sl.Len;
  }

  /** Append as written, after a Remove: the new value goes behind the
      zeroed slot, so the last live element reads as zero (10, 20; remove
      index 0; append 30; Get(1) is (0, true) and 30 cannot be located). */
  method AppendAfterRemove() returns (got: (int, bool), idx: int, found: bool)
    ensures got == (0, true) && idx == -1 && !found
  {
    var sl := AppendAll(4, 0, [10, 20]);
    var _, _ := sl.Remove(0);
    sl.Append(30);
    got := sl.Get(1);
    idx, found := sl.Locate(30, (a: int, b: int) => a == b);
  }

  /** The same steps with AppendAtLen: Get(1) is (30, true). */
  method AppendAtLenAfterRemove() returns (got: (int, bool), idx: int, found: bool)
    ensures got == (30, true) && idx == 1 && found
  {
    var sl := AppendAll(4, 0, [10, 20]);
    var _, _ := sl.Remove(0);
    sl.AppendAtLen(30);
    got := sl.Get(1);
    var eq := (a: int, b: int) => a == b;
    idx, found := sl.Locate(30, eq);
    assert !eq(sl.Elements()[0], 30) && eq(sl.Elements()[1], 30);
  }

  /** Locate returns the first of two equal elements, and -1 when none
      matches. */
  method LocateScenario() returns (first: int, ok: bool, none: int, nok: bool)
    ensures first == 1 && ok && none == -1 && !nok
  {
    var sl := AppendAll(5, 0, [10, 20, 30, 20]);
    var eq := (a: int, b: int) => a == b;
    first, ok := sl.Locate(20, eq);
    assert !eq(sl.Elements()[0], 20) && eq(sl.Elements()[1], 20);
    none, nok := sl.Locate(50, eq);
  }

  /** Clear(false) keeps the grown capacity 8, Clear(true) goes back to 10,
      and appending after a clear starts a clean slice. */
  method ClearScenario() returns (kept: int, reset: int, data: seq<int>)
    ensures kept == 8 && reset == DefaultCap && data == [100]
  {
    var sl := AppendAll(2, 0, [1, 2, 3, 4, 5]);
    sl.Clear(false);
    kept := sl.Cap;
    sl.Append(100);
    data := sl.Data;
    sl.Clear(true);
    reset := sl.Cap;
  }

  /** Append, Remove, Get, Locate, Clear and Append again on one list. */
  method IntegrationScenario() returns (got: (string, bool), at: int, cap: int, data: seq<string>)
    ensures got == ("c", true) && at == 0 && cap == 3 && data == ["x", "y"]
  {
    var sl := AppendAll(3, "", ["a", "b", "c"]);
    var _, _ := sl.Remove(1);
    got := sl.Get(1);
    var eq := (a: string, b: string) => a == b;
    var found;
    at, found := sl.Locate("a", eq);
    assert eq(sl.Elements()[0], "a");
    sl.Clear(false);
    cap := sl.Cap;
    sl.Append("x");
    sl.Append("y");
    data := sl.Data;
  }
}
