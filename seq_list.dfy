/** A growable list over a slice: `Len` elements are live, `Cap` is the
    capacity the list manages itself and doubles when it is full. `Data` is
    the slice as Go sees it (its visible length); it can run past `Len`,
    because Remove zeroes the vacated slot without shortening the slice. */
module SequentialList {

  /** The capacity Clear(true) falls back to. */
  const DefaultCap: int := 10

  /** c doubled m times, that is c * 2^m. */
  function Doubled(c: int, m: nat): (r: int)
  {
    if m == 0 then c else 2 * Doubled(c, m - 1)
  }

  lemma {:induction false} DoubledShift(c: int, m: nat)
    ensures Doubled(2 * c, m) == Doubled(c, m + 1)
  {
    if m > 0 {
      DoubledShift(c, m - 1);
    }
  }

  lemma {:induction false} DoubledGrows(c: int, m: nat)
    requires c > 0
    ensures c <= Doubled(c, m)
  {
    if m > 0 {
      DoubledGrows(c, m - 1);
    }
  }

  /** Cap of a list created with capacity c after k appends and nothing
      else: the k-th append finds Len == k - 1 and doubles when that is Cap. */
  function CapAfter(c: int, k: nat): (r: int)
  {
    if k == 0 then c
    else
      var p := CapAfter(c, k - 1);
      if k - 1 == p then p + p else p
  }

  /** The fewest doublings of c that reach k. */
  function LeastDoublings(c: int, k: nat): (m: nat)
    requires c > 0
    decreases k - c
  {
    if k <= c then 0 else 1 + LeastDoublings(2 * c, k)
  }

  /** c doubled LeastDoublings(c, k) times reaches k, and one doubling
      fewer does not. */
  lemma {:induction false} LeastDoublingsIsLeast(c: int, k: nat)
    requires c > 0
    ensures k <= Doubled(c, LeastDoublings(c, k))
    ensures LeastDoublings(c, k) > 0 ==> Doubled(c, LeastDoublings(c, k) - 1) < k
    decreases k - c
  {
    if k > c {
      var m := LeastDoublings(2 * c, k);
      LeastDoublingsIsLeast(2 * c, k);
      DoubledShift(c, m);
      if m > 0 {
        DoubledShift(c, m - 1);
      }
    }
  }

  /** Any m with those two properties is LeastDoublings(c, k). */
  lemma {:induction false} LeastDoublingsUnique(c: int, k: nat, m: nat)
    requires c > 0
    requires k <= Doubled(c, m)
    requires m > 0 ==> Doubled(c, m - 1) < k
    ensures LeastDoublings(c, k) == m
    decreases m
  {
    if m > 0 {
      DoubledGrows(c, m - 1);
      DoubledShift(c, m - 1);
      if m > 1 {
        DoubledShift(c, m - 2);
      }
      LeastDoublingsUnique(2 * c, k, m - 1);
    }
  }

  /** After k appends to a new list of capacity c, Cap is c * 2^m for the
      least m with c * 2^m >= k; in particular it is at least k. */
  lemma {:induction false} CapAfterIsLeastCover(c: int, k: nat)
    requires c > 0
    ensures k <= CapAfter(c, k) == Doubled(c, LeastDoublings(c, k))
  {
    if k > 0 {
      CapAfterIsLeastCover(c, k - 1);
      var m := LeastDoublings(c, k - 1);
      DoubledGrows(c, m);
      if k - 1 == CapAfter(c, k - 1) {
        LeastDoublingsUnique(c, k, m + 1);
      } else {
        LeastDoublingsIsLeast(c, k - 1);
        LeastDoublingsUnique(c, k, m);
      }
    }
  }

  /** The slice Remove leaves behind: s is d with d[i + 1..n] moved one to
      the left, and slot n - 1 is then zeroed. */
  lemma RemovedShape<T>(d: seq<T>, s: seq<T>, i: int, n: int, zero: T)
    requires 0 <= i < n <= |d| == |s|
    requires forall k :: i <= k < n - 1 ==> s[k] == d[k + 1]
    requires forall k :: 0 <= k < i || n - 1 <= k < |s| ==> s[k] == d[k]
    ensures s[n - 1 := zero] == d[..i] + d[i + 1..n] + [zero] + d[n..]
    ensures s[n - 1 := zero][..n - 1] == d[..n][..i] + d[..n][i + 1..]
  {
  }

  class SeqList<T> {
    var Cap: int
    var Len: int
    var Data: seq<T>
    /** Go's zero value of T, returned on failure and written into vacated slots. */
    const zero: T

    ghost predicate Valid()
      reads this
    {
      0 < Cap && 0 <= Len <= Cap && Len <= |Data|
    }

    /** The live elements, in order. */
    function Elements(): (s: seq<T>)
      reads this
      requires Valid()
      ensures |s| == Len
    {
      Data[..Len]
    }

    /** An empty list with capacity `cap`; a non-positive `cap` is a panic
        in the source and is excluded here. */
    constructor (cap: int, zero: T)
      requires cap > 0
      ensures Valid()
      ensures Cap == cap && Len == 0 && Data == [] && this.zero == zero
    {
      Cap := cap;
      Len := 0;
      Data := [];
      this.zero := zero;
    }

    /** Adds v, first doubling Cap and copying the live prefix into a new
        slice when the list is full. The value is appended to the slice as
        it stands, so after a Remove it lands behind the zeroed slot. */
    method Append(v: T)
      requires Valid()
      modifies this
      ensures Valid()
      ensures Cap == if old(Len) == old(Cap) then 2 * old(Cap) else old(Cap)
      ensures Len == old(Len) + 1
      ensures Data == (if old(Len) == old(Cap) then old(Data)[..old(Len)] else old(Data)) + [v]
      ensures Elements()[..old(Len)] == old(Elements())
      ensures old(|Data|) == old(Len) || old(Len) == old(Cap) ==> Elements() == old(Elements()) + [v]
      ensures old(|Data|) > old(Len) && old(Len) < old(Cap) ==>
                Elements() == old(Elements()) + [old(Data)[old(Len)]]
    {
      if Len == Cap {
        Cap := Cap + Cap;
        // a fresh slice of length Len receiving a copy of the live prefix
        Data := Data[..Len];
      }
      Data := Data + [v];
      Len := Len + 1;
    }

    /** Appending written as the slice's live prefix plus v, which is what the
        contract of Append evidently intends; see AppendAfterRemove. */
    method AppendAtLen(v: T)
      requires Valid()
      modifies this
      ensures Valid()
      ensures Cap == if old(Len) == old(Cap) then 2 * old(Cap) else old(Cap)
      ensures Elements() == old(Elements()) + [v] && Data == Elements()
      ensures Get(old(Len)) == (v, true)
    {
      if Len == Cap {
        Cap := Cap + Cap;
      }
      Data := Data[..Len] + [v];
      Len := Len + 1;
    }

    /** Removes the element at i, shifting the ones after it left by one and
        zeroing the slot that frees up; the slice keeps its length. An i
        outside 0..Len-1 yields (zero, false) and changes nothing. */
    method Remove(i: int) returns (x: T, ok: bool)
      requires Valid()
      modifies this
      ensures Valid()
      ensures ok <==> 0 <= i < old(Len)
      ensures !ok ==> x == zero && Data == old(Data) && Len == old(Len) && Cap == old(Cap)
      ensures ok ==>
                && x == old(Elements())[i]
                && Elements() == old(Elements())[..i] + old(Elements())[i + 1..]
                && Data == old(Data)[..i] + old(Data)[i + 1..old(Len)] + [zero] + old(Data)[old(Len)..]
                && Len == old(Len) - 1 && Cap == old(Cap)
    {
      if i < 0 || i >= Len {
        return zero, false;
      }

      ghost var d := Data;
      var data := Data[i];
      var j := i;
      while j < Len - 1
        invariant Len == old(Len) && Cap == old(Cap)
        invariant i <= j <= Len - 1
        invariant |Data| == |d|
        invariant forall k :: i <= k < j ==> Data[k] == d[k + 1]
        invariant forall k :: 0 <= k < i || j <= k < |Data| ==> Data[k] == d[k]
      {
        Data := Data[j := Data[j + 1]];
        j := j + 1;
      }

      RemovedShape(d, Data, i, Len, zero);
      Data := Data[Len - 1 := zero];
      Len := Len - 1;
      return data, true;
    }

    /** The element at i when 0 <= i < Len, otherwise (zero, false). */
    function Get(i: int): (r: (T, bool))
      reads this
      requires Valid()
      ensures r.1 <==> 0 <= i < Len
      ensures r.1 ==> r.0 == Elements()[i]
      ensures !r.1 ==> r.0 == zero
    {
      if i < 0 || i >= Len then (zero, false) else (Data[i], true)
    }

    /** The first live index whose element `comparator` matches against
        `target` (element first, target second), or (-1, false). */
    method Locate(target: T, comparator: (T, T) -> bool) returns (idx: int, ok: bool)
      requires Valid()
      ensures ok ==> 0 <= idx < Len && comparator(Elements()[idx], target)
      ensures ok ==> forall k :: 0 <= k < idx ==> !comparator(Elements()[k], target)
      ensures !ok ==> idx == -1 && forall k :: 0 <= k < Len ==> !comparator(Elements()[k], target)
    {
      var i := 0;
      while i < Len
        invariant 0 <= i <= Len
        invariant forall k :: 0 <= k < i ==> !comparator(Data[k], target)
      {
        if comparator(Data[i], target) {
          return i, true;
        }
        i := i + 1;
      }
      return -1, false;
    }

    /** Empties the list with a fresh empty slice; ifBack also resets the
        capacity to DefaultCap, otherwise it is kept. */
    method Clear(ifBack: bool)
      requires Valid()
      modifies this
      ensures Valid()
      ensures Len == 0 && Data == [] && Elements() == []
      ensures Cap == if ifBack then DefaultCap else old(Cap)
      ensures forall j :: !Get(j).1
    {
      if ifBack {
        Data := [];
        Len := 0;
        Cap := DefaultCap;
        return;
      }

      Data := [];
      Len := 0;
    }
  }
}
