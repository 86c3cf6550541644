/** The operations of Json::Value that change an array in place, and the sequences they stand for. */
module Arrays {
  import opened Bytes
  import opened Values
  import opened Places

  // ----- Ordered maps as functions of their keys -----

  lemma FindErase(ms: Members, k: Key, k': Key)
    requires Sorted(ms)
    ensures Find(Erase(ms, k), k') == if k' == k then None else Find(ms, k')
  {
    if ms.Cons? {
      if ms.key == k { AboveNotFound(k, ms.tail, k); }
      FindErase(ms.tail, k, k');
    }
  }

  lemma {:induction false} SortedErase(ms: Members, k: Key)
    requires Sorted(ms)
    ensures Sorted(Erase(ms, k))
  {
    if ms.Cons? && ms.key != k {
      SortedErase(ms.tail, k);
      AboveErase(ms.key, ms.tail, k);
    }
  }

  lemma AboveErase(k: Key, ms: Members, k': Key)
    requires Above(k, ms)
    ensures Above(k, Erase(ms, k'))
  {}

  /** Ordered maps with the same look-ups are the same map. */
  lemma {:induction false} Extensionality(ms: Members, ns: Members)
    requires Sorted(ms) && Sorted(ns)
    requires forall k :: Find(ms, k) == Find(ns, k)
    ensures ms == ns
  {
    if ms.Cons? { assert Find(ms, ms.key).Some?; }
    if ns.Cons? { assert Find(ns, ns.key).Some?; }
    if ms.Cons? && ns.Cons? {
      assert Find(ms, ms.key) == Find(ns, ms.key) && Find(ms, ns.key) == Find(ns, ns.key);
      KeyTrichotomy(ms.key, ns.key);
      if KeyLess(ms.key, ns.key) {
        AboveNotFound(ns.key, ns.tail, ms.key);
      } else if KeyLess(ns.key, ms.key) {
        AboveNotFound(ms.key, ms.tail, ns.key);
      }
      forall k
        ensures Find(ms.tail, k) == Find(ns.tail, k)
      {
        AboveNotFound(ms.key, ms.tail, ms.key);
        AboveNotFound(ns.key, ns.tail, ns.key);
        assert Find(ms, k) == Find(ns, k);
      }
      Extensionality(ms.tail, ns.tail);
    }
  }

  /** The last key is present, and no index beyond it is. */
  lemma {:induction false} LastIsGreatest(ms: Members, i: nat)
    requires ms.Cons? && Sorted(ms) && IndexKeys(ms)
    ensures LastKey(ms).Index? && LastKey(ms).index < TWO_TO_THE_32 && Find(ms, LastKey(ms)).Some?
    ensures ms.key == LastKey(ms) || KeyLess(ms.key, LastKey(ms))
    ensures Find(ms, Index(i)).Some? ==> i <= LastKey(ms).index
  {
    if ms.tail.Cons? {
      LastIsGreatest(ms.tail, i);
      if ms.tail.key != LastKey(ms) { KeyTransitive(ms.key, ms.tail.key, LastKey(ms)); }
      AboveNotFound(ms.key, ms.tail, ms.key);
      assert KeyLess(ms.key, LastKey(ms));
    } else {
      assert Find(ms.tail, Index(i)) == None;
    }
    assert Find(ms, Index(i)).Some? ==> Index(i) == ms.key || Find(ms.tail, Index(i)).Some?;
  }

  // ----- Arrays as sequences -----

  function FromSeq(s: seq<Value>, i: nat): Members
    requires i <= |s|
    decreases |s| - i
  {
    if i == |s| then Nil else Cons(Index(i), s[i], FromSeq(s, i + 1))
  }

  /** The map of a dense array: keys exactly 0 to |s| - 1. */
  function OfSeq(s: seq<Value>): Members { FromSeq(s, 0) }

  lemma {:induction false} FromSeqAbove(s: seq<Value>, i: nat, n: nat)
    requires n < i <= |s|
    ensures Above(Index(n), FromSeq(s, i))
    decreases |s| - i
  {
    if i < |s| { FromSeqAbove(s, i + 1, n); }
  }

  lemma {:induction false} FromSeqIsSorted(s: seq<Value>, i: nat, k: Key)
    requires i <= |s|
    ensures Sorted(FromSeq(s, i))
    ensures |s| <= TWO_TO_THE_32 ==> IndexKeys(FromSeq(s, i))
    ensures Find(FromSeq(s, i), k) == if k.Index? && i <= k.index < |s| then Some(s[k.index]) else None
    ensures i < |s| ==> LastKey(FromSeq(s, i)) == Index(|s| - 1)
    decreases |s| - i
  {
    if i < |s| {
      FromSeqIsSorted(s, i + 1, k);
      FromSeqAbove(s, i + 1, i);
    }
  }

  /** size() of a dense array: its length, until 2^32 elements wrap it to zero. */
  lemma OfSeqSize(s: seq<Value>)
    requires |s| <= TWO_TO_THE_32
    ensures ArraySize(OfSeq(s)) == |s| % TWO_TO_THE_32
  {
    FromSeqIsSorted(s, 0, Index(0));
  }

  /** A map is a dense array's if its look-ups are the sequence's. */
  lemma IsOfSeq(ms: Members, s: seq<Value>)
    requires Sorted(ms)
    requires forall k :: Find(ms, k) == if k.Index? && k.index < |s| then Some(s[k.index]) else None
    ensures ms == OfSeq(s)
  {
    FromSeqIsSorted(s, 0, Index(0));
    forall k
      ensures Find(ms, k) == Find(OfSeq(s), k)
    {
      FromSeqIsSorted(s, 0, k);
    }
    Extensionality(ms, OfSeq(s));
  }

  // ----- Operations -----

  /** clear(), resize() and operator[] turn null into an empty array and refuse other types. */
  function AsArray(v: Value): Option<Value> {
    if v.json.Array? then Some(v)
    else if v.json.Null? then Some(Value(Array(Nil), 0, 0))
    else None
  }

  /** The entries below n. */
  function Truncated(ms: Members, n: nat): Members {
    match ms
    case Nil => Nil
    case Cons(k, v, t) => if k.Index? && k.index >= n then Nil else Cons(k, v, Truncated(t, n))
  }

  lemma {:induction false} TruncatedFinds(ms: Members, n: nat, k: Key)
    requires Sorted(ms) && IndexKeys(ms)
    ensures Sorted(Truncated(ms, n)) && IndexKeys(Truncated(ms, n))
    ensures forall k0: Key :: Above(k0, ms) ==> Above(k0, Truncated(ms, n))
    ensures Find(Truncated(ms, n), k) == if k.Index? && k.index < n then Find(ms, k) else None
  {
    if ms.Cons? {
      TruncatedFinds(ms.tail, n, k);
      if ms.key.index >= n && k.Index? && k.index < n { AboveNotFound(ms.key, ms.tail, k); }
    }
  }

  /** What removeIndex leaves under each key: later elements move down, holes among them become null. */
  function ShiftedDown(ms: Members, index: nat, last: nat, k: Key): Option<Value> {
    if k.Name? || k.index < index then Find(ms, k)
    else if k.index < last then Some(Fetch(ms, Index(k.index + 1)))
    else None
  }

  /** The look-ups when the shifting loop has reached element i. */
  function PartlyShifted(ms: Members, index: nat, i: nat, k: Key): Option<Value> {
    if k.Name? || k.index < index || k.index > i then Find(ms, k)
    else if k.index < i then Some(Fetch(ms, Index(k.index + 1)))
    else Some(Fetch(ms, k))
  }

  /** One turn of the shifting loop. */
  lemma MoveDown(ms: Members, now: Members, index: nat, i: nat)
    requires index <= i && Sorted(now)
    requires forall k :: Find(now, k) == PartlyShifted(ms, index, i, k)
    ensures var made := WithMember(Value(Array(now), 0, 0), Index(i + 1)).json.ms;
            var next := Put(made, Index(i), Fetch(made, Index(i + 1)));
            Sorted(next) && forall k :: Find(next, k) == PartlyShifted(ms, index, i + 1, k)
  {
    var made := WithMember(Value(Array(now), 0, 0), Index(i + 1)).json.ms;
    var v := Fetch(made, Index(i + 1));
    SortedPut(now, Index(i + 1), NULL_VALUE);
    SortedPut(made, Index(i), v);
    assert Find(now, Index(i + 1)) == PartlyShifted(ms, index, i, Index(i + 1)) == Find(ms, Index(i + 1));
    assert v == Fetch(ms, Index(i + 1));
    forall k
      ensures Find(Put(made, Index(i), v), k) == PartlyShifted(ms, index, i + 1, k)
    {
      FindPut(now, Index(i + 1), NULL_VALUE, k);
      FindPut(made, Index(i), v, k);
      assert Find(now, k) == PartlyShifted(ms, index, i, k);
    }
  }

  /** Erasing the leftover completes the shift. */
  lemma DropLast(ms: Members, now: Members, index: nat, last: nat)
    requires ms.Cons? && WellFormed(Array(ms)) && Index(last) == LastKey(ms) && index <= last && Sorted(now)
    requires forall k :: Find(now, k) == PartlyShifted(ms, index, last, k)
    ensures Sorted(Erase(now, Index(last)))
    ensures forall k :: Find(Erase(now, Index(last)), k) == ShiftedDown(ms, index, last, k)
  {
    SortedErase(now, Index(last));
    forall k
      ensures Find(Erase(now, Index(last)), k) == ShiftedDown(ms, index, last, k)
    {
      FindErase(now, Index(last), k);
      assert Find(now, k) == PartlyShifted(ms, index, last, k);
      LastIsGreatest(ms, if k.Index? then k.index else 0);
    }
  }

  lemma SizeBound(ms: Members)
    ensures ArraySize(ms) < TWO_TO_THE_32
  {}

  /** No element lies beyond a size that has not wrapped to zero. */
  lemma NothingBeyondSize(ms: Members, i: nat)
    requires WellFormed(Array(ms)) && 0 < ArraySize(ms) <= i
    ensures Find(ms, Index(i)) == None
  {
    LastIsGreatest(ms, i);
  }

  lemma TruncatedByErasing(ms: Members, n: nat, now: Members)
    requires WellFormed(Array(ms)) && 0 < n <= ArraySize(ms) && Sorted(now)
    requires forall k :: Find(now, k) == if k.Index? && n <= k.index < ArraySize(ms) then None else Find(ms, k)
    ensures now == Truncated(ms, n)
  {
    TruncatedFinds(ms, n, Index(0));
    forall k
      ensures Find(now, k) == Find(Truncated(ms, n), k)
    {
      TruncatedFinds(ms, n, k);
      assert Find(now, k) == if k.Index? && n <= k.index < ArraySize(ms) then None else Find(ms, k);
      if k.Index? && k.index >= ArraySize(ms) { NothingBeyondSize(ms, k.index); }
      if k.Name? { NoNames(ms, k); }
    }
    Extensionality(now, Truncated(ms, n));
  }

  lemma NoNames(ms: Members, k: Key)
    requires IndexKeys(ms) && k.Name?
    ensures Find(ms, k) == None
  {}

  // ----- What the operations mean -----

  /** The assertion at the end of a shrinking resize holds exactly if the new last element exists. */
  lemma ShrinkingAssertion(ms: Members, n: nat)
    requires WellFormed(Array(ms)) && 0 < n <= ArraySize(ms)
    ensures ArraySize(Truncated(ms, n)) == n <==> Find(ms, Index(n - 1)).Some?
  {
    var t := Truncated(ms, n);
    TruncatedFinds(ms, n, Index(n - 1));
    SizeBound(ms);
    if t.Cons? {
      LastIsGreatest(t, n - 1);
      TruncatedFinds(ms, n, LastKey(t));
    }
  }

  /** append on a dense array appends to the sequence, unless size() has wrapped around. */
  lemma AppendIsSequenceAppend(s: seq<Value>, v: Value)
    requires |s| <= TWO_TO_THE_32
    ensures Put(OfSeq(s), Index(ArraySize(OfSeq(s))), v) == OfSeq(s + [v]) <==> |s| < TWO_TO_THE_32
  {
    OfSeqSize(s);
    FromSeqIsSorted(s, 0, Index(0));
    var i := ArraySize(OfSeq(s));
    var ms := Put(OfSeq(s), Index(i), v);
    if |s| < TWO_TO_THE_32 {
      SortedPut(OfSeq(s), Index(i), v);
      forall k
        ensures Find(ms, k) == if k.Index? && k.index < |s + [v]| then Some((s + [v])[k.index]) else None
      {
        FindPut(OfSeq(s), Index(i), v, k);
        FromSeqIsSorted(s, 0, k);
      }
      IsOfSeq(ms, s + [v]);
    } else {
      FindPut(OfSeq(s), Index(i), v, Index(|s|));
      FromSeqIsSorted(s, 0, Index(|s|));
      FromSeqIsSorted(s + [v], 0, Index(|s|));
    }
  }

  /** The map that resize leaves of an array that is not null: growing creates the last element only. */
  function Resized(ms: Members, n: nat): Members {
    if n == 0 then Nil
    else if n > ArraySize(ms) then Put(ms, Index(n - 1), Fetch(ms, Index(n - 1)))
    else Truncated(ms, n)
  }

  /**
    resize of a dense array to at most its length truncates the sequence if and only if size()
    has not wrapped around or there is nothing to keep; its assertion holds.
  */
  lemma ResizeIsTruncation(s: seq<Value>, n: nat)
    requires n <= |s| <= TWO_TO_THE_32 && n < TWO_TO_THE_32
    ensures Resized(OfSeq(s), n) == OfSeq(s[..n]) <==> |s| < TWO_TO_THE_32 || n == 0
    ensures |s| == TWO_TO_THE_32 && n > 0 ==> Resized(OfSeq(s), n) == OfSeq(s)
    ensures |s| < TWO_TO_THE_32 ==> ArraySize(Resized(OfSeq(s), n)) == n
  {
    OfSeqSize(s);
    if 0 < n && |s| < TWO_TO_THE_32 {
      TruncationOfSeq(s, n);
    } else if 0 < n {
      FromSeqIsSorted(s, 0, Index(n - 1));
      PutSame(OfSeq(s), Index(n - 1));
      FromSeqIsSorted(s, 0, Index(n));
      FromSeqIsSorted(s[..n], 0, Index(n));
    }
  }

  /**
    Growing creates the last element and keeps every other one; the size is then the new size if
    and only if it had not wrapped around.
  */
  lemma ResizeGrows(ms: Members, n: nat, k: Key)
    requires WellFormed(Array(ms)) && ArraySize(ms) < n < TWO_TO_THE_32
    ensures Find(Resized(ms, n), k) == if k == Index(n - 1) then Some(Fetch(ms, k)) else Find(ms, k)
    ensures ArraySize(ms) > 0 ==> Fetch(ms, Index(n - 1)) == NULL_VALUE
    ensures ArraySize(Resized(ms, n)) == n <==> Find(ms, Index(TWO_TO_THE_32 - 1)).None?
  {
    var last := Index(n - 1);
    var after := Put(ms, last, Fetch(ms, last));
    FindPut(ms, last, Fetch(ms, last), k);
    if ArraySize(ms) > 0 { NothingBeyondSize(ms, n - 1); }
    SortedPut(ms, last, Fetch(ms, last));
    IndexKeysKept(ms, last, Fetch(ms, last));
    FindPut(ms, last, Fetch(ms, last), last);
    FindPut(ms, last, Fetch(ms, last), Index(TWO_TO_THE_32 - 1));
    LastIsGreatest(after, n - 1);
    LastIsGreatest(after, TWO_TO_THE_32 - 1);
    if ms.Cons? {
      LastIsGreatest(ms, TWO_TO_THE_32 - 1);
      FindPut(ms, last, Fetch(ms, last), LastKey(after));
      LastIsGreatest(ms, LastKey(after).index);
    }
  }

  lemma IndexKeysKept(ms: Members, k: Key, v: Value)
    requires IndexKeys(ms) && k.Index? && k.index < TWO_TO_THE_32
    ensures IndexKeys(Put(ms, k, v))
  {}

  lemma TruncationOfSeq(s: seq<Value>, n: nat)
    requires 0 < n <= |s| < TWO_TO_THE_32
    ensures Truncated(OfSeq(s), n) == OfSeq(s[..n])
    ensures ArraySize(Truncated(OfSeq(s), n)) == n
  {
    FromSeqIsSorted(s, 0, Index(0));
    TruncatedFinds(OfSeq(s), n, Index(0));
    forall k
      ensures Find(Truncated(OfSeq(s), n), k) == if k.Index? && k.index < n then Some(s[..n][k.index]) else None
    {
      TruncatedFinds(OfSeq(s), n, k);
      FromSeqIsSorted(s, 0, k);
    }
    IsOfSeq(Truncated(OfSeq(s), n), s[..n]);
    OfSeqSize(s[..n]);
  }

  /** removeIndex on a dense array deletes from the sequence. */
  lemma RemoveIsDeletion(s: seq<Value>, i: nat, after: Members)
    requires i < |s| <= TWO_TO_THE_32 && Sorted(after)
    requires forall k :: Find(after, k) == ShiftedDown(OfSeq(s), i, |s| - 1, k)
    ensures after == OfSeq(s[..i] + s[i + 1..])
    ensures LastKey(OfSeq(s)) == Index(|s| - 1) && Fetch(OfSeq(s), Index(i)) == s[i]
  {
    var t := s[..i] + s[i + 1..];
    forall k
      ensures Find(after, k) == if k.Index? && k.index < |t| then Some(t[k.index]) else None
    {
      assert Find(after, k) == ShiftedDown(OfSeq(s), i, |s| - 1, k);
      FromSeqIsSorted(s, 0, k);
      if k.Index? { FromSeqIsSorted(s, 0, Index(k.index + 1)); }
    }
    IsOfSeq(after, t);
    FromSeqIsSorted(s, 0, Index(i));
  }

  /** A Value that its owner changes in place. */
  class Cell {
    var value: Value

    constructor (v: Value)
      ensures value == v
    {
      value := v;
    }

    /** operator[](ArrayIndex): makes sure that the element exists; false if the type forbids it. */
    method Element(index: nat) returns (ok: bool)
      requires index < TWO_TO_THE_32
      modifies this
      ensures ok == old(AsArray(value)).Some?
      ensures !ok ==> value == old(value)
      ensures ok ==> value == WithMember(old(AsArray(value)).value, Index(index))
    {
      if !value.json.Null? && !value.json.Array? { return false; }
      if value.json.Null? { value := Value(Array(Nil), 0, 0); }
      var key := Index(index);
      value := WithMember(value, key);
      return true;
    }

    /** append: assigns to the element whose index is the size. */
    method Append(v: Value) returns (ok: bool)
      modifies this
      ensures ok == old(AsArray(value)).Some?
      ensures !ok ==> value == old(value)
      ensures ok ==> value == SetMember(old(AsArray(value)).value, Index(ArraySize(old(AsArray(value)).value.json.ms)), v)
    {
      var size := if value.json.Array? then ArraySize(value.json.ms) else 0;
      if value.json.Array? { SizeBound(value.json.ms); }
      ghost var before := AsArray(value);
      ok := Element(size);
      if ok {
        var ms := value.json.ms;
        value := value.(json := Array(Put(ms, Index(size), v)));
        PutPut(before.value.json.ms, Index(size), NULL_VALUE, v);
      }
    }

    /** resize. A shrinking call that ends with another size throws. */
    method Resize(newSize: nat) returns (ok: bool)
      requires newSize < TWO_TO_THE_32
      requires value.json.Array? ==> WellFormed(value.json)
      modifies this
      ensures old(AsArray(value)).None? ==> !ok && value == old(value)
      ensures old(AsArray(value)).Some? ==>
                var ms := old(AsArray(value)).value.json.ms;
                value.json == Array(Resized(ms, newSize)) &&
                (newSize == 0 ==> value == Value(Array(Nil), 0, 0)) &&
                ok == (newSize == 0 || newSize > ArraySize(ms) || ArraySize(value.json.ms) == newSize)
    {
      if !value.json.Null? && !value.json.Array? { return false; }
      if value.json.Null? { value := Value(Array(Nil), 0, 0); }
      ghost var ms := value.json.ms;
      var oldSize := ArraySize(value.json.ms);
      if newSize == 0 {
        value := Value(Array(Nil), 0, 0);
        return true;
      } else if newSize > oldSize {
        if Find(ms, Index(newSize - 1)).Some? { PutSame(ms, Index(newSize - 1)); }
        ok := Element(newSize - 1);
        return;
      }
      var index := newSize;
      while index < oldSize
        invariant newSize <= index <= oldSize && value.json.Array? && Sorted(value.json.ms)
        invariant forall k :: Find(value.json.ms, k) == if k.Index? && newSize <= k.index < index then None else Find(ms, k)
      {
        ghost var before := value.json.ms;
        forall k
          ensures Find(Erase(before, Index(index)), k) == if k == Index(index) then None else Find(before, k)
        {
          FindErase(before, Index(index), k);
        }
        SortedErase(before, Index(index));
        value := value.(json := Array(Erase(value.json.ms, Index(index))));
        index := index + 1;
      }
      TruncatedByErasing(ms, newSize, value.json.ms);
      return ArraySize(value.json.ms) == newSize;
    }

    /** removeIndex. */
    method RemoveIndex(index: nat) returns (found: bool, removed: Value)
      requires index < TWO_TO_THE_32
      requires value.json.Array? ==> WellFormed(value.json)
      modifies this
      ensures found <==> old(value).json.Array? && Find(old(value).json.ms, Index(index)).Some?
      ensures !found ==> value == old(value)
      ensures found ==>
                var ms := old(value).json.ms;
                removed == Fetch(ms, Index(index)) && ms.Cons? && LastKey(ms).Index? &&
                value.json.Array? && Sorted(value.json.ms) &&
                forall k :: Find(value.json.ms, k) == ShiftedDown(ms, index, LastKey(ms).index, k)
    {
      removed := NULL_VALUE;
      if !value.json.Array? { return false, removed; }
      ghost var ms := value.json.ms;
      if Find(value.json.ms, Index(index)).None? { return false, removed; }
      removed := Fetch(value.json.ms, Index(index));
      LastIsGreatest(ms, index);
      var oldSize := ArraySize(value.json.ms);
      var last := (oldSize - 1) % TWO_TO_THE_32;
      assert last == LastKey(ms).index;
      var i := index;
      while i < last
        invariant index <= i <= last && value.json.Array? && Sorted(value.json.ms)
        invariant forall k :: Find(value.json.ms, k) == PartlyShifted(ms, index, i, k)
      {
        MoveDown(ms, value.json.ms, index, i);
        var ok := Element(i + 1);
        var next := Fetch(value.json.ms, Index(i + 1));
        value := value.(json := Array(Put(value.json.ms, Index(i), next)));
        i := i + 1;
      }
      DropLast(ms, value.json.ms, index, last);
      value := value.(json := Array(Erase(value.json.ms, Index(last))));
      return true, removed;
    }
  }
}
