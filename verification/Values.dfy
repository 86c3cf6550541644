/**
  Json::Value. A `Json` is the payload (the tagged union), a `Value` adds the source
  offsets start_ and limit_. `Members` is the std::map<CZString, Value> shared by arrays
  and objects, listed in the order in which the map iterates.
*/
module Values {
  import opened Bytes

  const MAX_INT: int := 0x7FFF_FFFF
  const MAX_INT64: int := 0x7FFF_FFFF_FFFF_FFFF
  const MIN_INT64: int := -0x8000_0000_0000_0000
  const MAX_UINT64: int := 0xFFFF_FFFF_FFFF_FFFF
  const TWO_TO_THE_32: int := 0x1_0000_0000

  /** CZString keeps 30 bits of the length of a name. */
  const NAME_LIMIT: nat := 0x4000_0000

  /** The longest string that a Value holds: maxInt, less a length prefix and a NUL. */
  const STRING_LIMIT: nat := 0x7FFF_FFFA

  /** CZString: an array index or a member name. One map holds only one of the two kinds. */
  datatype Key = Index(index: nat) | Name(name: bytes)

  datatype Json =
    | Null
    | Int(i: int)
    | UInt(u: int)
    | Real(r: real)
    | NullStr
    | Str(s: bytes)
    | Bool(b: bool)
    | Array(ms: Members)
    | Object(ms: Members)

  datatype Value = Value(json: Json, start: int, limit: int)

  datatype Members = Nil | Cons(key: Key, value: Value, tail: Members)

  /** Value::nullSingleton(), the default of a member that operator[] creates. */
  const NULL_VALUE: Value := Value(Null, 0, 0)

  /** The key that operator[] makes of a name. */
  function NameKey(name: bytes): Key { Name(name[..|name| % NAME_LIMIT]) }

  /** A name is its own key if and only if it is shorter than 2^30 bytes; a longer one has a short one's key. */
  lemma NameKeyIsName(name: bytes)
    ensures NameKey(name) == Name(name) <==> |name| < NAME_LIMIT
    ensures var short := name[..|name| % NAME_LIMIT]; NameKey(name) == NameKey(short) && |short| < NAME_LIMIT
  {
    var short := name[..|name| % NAME_LIMIT];
    assert |name| < NAME_LIMIT ==> short == name;
    assert short[..|short|] == short;
  }

  /** Short names have keys of their own; a name of 2^30 bytes has the key of the empty name. */
  lemma NamesStayApart(s: bytes, t: bytes)
    ensures |s| < NAME_LIMIT && |t| < NAME_LIMIT ==> (NameKey(s) == NameKey(t) <==> s == t)
    ensures |s| == NAME_LIMIT ==> NameKey(s) == NameKey([])
  {
    NameKeyIsName(s);
    NameKeyIsName(t);
  }

  predicate KeyLess(a: Key, b: Key) {
    match (a, b)
    case (Index(i), Index(j)) => i < j
    case (Name(s), Name(t)) => BytesLess(s, t)
    case (Index(_), Name(_)) => true
    case (Name(_), Index(_)) => false
  }

  lemma KeyTrichotomy(a: Key, b: Key)
    ensures !(KeyLess(a, b) && KeyLess(b, a))
    ensures !KeyLess(a, b) && !KeyLess(b, a) <==> a == b
  {
    if a.Name? && b.Name? { BytesTrichotomy(a.name, b.name); }
  }

  lemma KeyTransitive(a: Key, b: Key, c: Key)
    requires KeyLess(a, b) && KeyLess(b, c)
    ensures KeyLess(a, c)
  {
    if a.Name? && b.Name? && c.Name? { BytesTransitive(a.name, b.name, c.name); }
  }

  // ----- std::map operations -----

  function Find(ms: Members, k: Key): (r: Option<Value>)
    ensures r.Some? ==> (ms decreases to r.value)
  {
    match ms
    case Nil => None
    case Cons(k', v, t) => if k' == k then Some(v) else Find(t, k)
  }

  /** The value under k, or the null singleton. */
  function Fetch(ms: Members, k: Key): Value {
    match Find(ms, k)
    case None => NULL_VALUE
    case Some(v) => v
  }

  /** Overwrite the entry of k or, if there is none, insert one at the place lower_bound gives. */
  function Put(ms: Members, k: Key, v: Value): Members {
    match ms
    case Nil => Cons(k, v, Nil)
    case Cons(k', v', t) =>
      if k' == k then Cons(k, v, t)
      else if KeyLess(k, k') && Find(t, k).None? then Cons(k, v, ms)
      else Cons(k', v', Put(t, k, v))
  }

  function Erase(ms: Members, k: Key): Members {
    match ms
    case Nil => Nil
    case Cons(k', v', t) => if k' == k then t else Cons(k', v', Erase(t, k))
  }

  function Count(ms: Members): nat {
    match ms
    case Nil => 0
    case Cons(_, _, t) => 1 + Count(t)
  }

  /** Every key of ms comes after k. */
  predicate Above(k: Key, ms: Members) {
    match ms
    case Nil => true
    case Cons(k', _, t) => KeyLess(k, k') && Above(k, t)
  }

  /** Every key of ms comes before k. */
  predicate Below(ms: Members, k: Key) {
    match ms
    case Nil => true
    case Cons(k', _, t) => KeyLess(k', k) && Below(t, k)
  }

  predicate Sorted(ms: Members) {
    match ms
    case Nil => true
    case Cons(k, _, t) => Above(k, t) && Sorted(t)
  }

  lemma FindPut(ms: Members, k: Key, v: Value, k': Key)
    ensures Find(Put(ms, k, v), k') == if k' == k then Some(v) else Find(ms, k')
  {}

  lemma PutPut(ms: Members, k: Key, v: Value, w: Value)
    ensures Put(Put(ms, k, v), k, w) == Put(ms, k, w)
  {
    FindPut(ms, k, v, k);
    if ms.Cons? { FindPut(ms.tail, k, v, k); }
  }

  lemma AboveNotFound(k: Key, ms: Members, k': Key)
    requires Above(k, ms) && (k' == k || KeyLess(k', k))
    ensures Find(ms, k') == None
  {
    if ms.Cons? {
      KeyTrichotomy(k, ms.key);
      KeyTrichotomy(k', k);
      KeyTrichotomy(k', ms.key);
      if k' != k { KeyTransitive(k', k, ms.key); }
      AboveNotFound(k, ms.tail, k');
    }
  }

  lemma AbovePut(k: Key, ms: Members, k': Key, v: Value)
    requires Above(k, ms) && KeyLess(k, k')
    ensures Above(k, Put(ms, k', v))
  {}

  lemma AboveLower(k: Key, k': Key, ms: Members)
    requires KeyLess(k, k') && Above(k', ms)
    ensures Above(k, ms)
  {
    if ms.Cons? {
      KeyTransitive(k, k', ms.key);
      AboveLower(k, k', ms.tail);
    }
  }

  lemma SortedPut(ms: Members, k: Key, v: Value)
    requires Sorted(ms)
    ensures Sorted(Put(ms, k, v))
  {
    if ms.Cons? && ms.key != k {
      KeyTrichotomy(k, ms.key);
      if KeyLess(k, ms.key) {
        AboveLower(k, ms.key, ms.tail);
        AboveNotFound(ms.key, ms.tail, k);
      } else {
        SortedPut(ms.tail, k, v);
        AbovePut(ms.key, ms.tail, k, v);
      }
    }
  }

  lemma PutSame(ms: Members, k: Key)
    requires Find(ms, k).Some?
    ensures Put(ms, k, Find(ms, k).value) == ms
  {}

  // ----- Entries in order -----

  function Concat(ms: Members, ns: Members): Members {
    match ms
    case Nil => ns
    case Cons(k, v, t) => Cons(k, v, Concat(t, ns))
  }

  lemma ConcatNil(ms: Members)
    ensures Concat(ms, Nil) == ms
  {}

  lemma ConcatAssociative(ms: Members, ns: Members, os: Members)
    ensures Concat(Concat(ms, ns), os) == Concat(ms, Concat(ns, os))
  {}

  /** A key beyond all others is added at the end. */
  lemma PutBelow(ms: Members, k: Key, v: Value)
    requires Below(ms, k)
    ensures Put(ms, k, v) == Concat(ms, Cons(k, v, Nil))
  {
    if ms.Cons? {
      KeyTrichotomy(ms.key, k);
      PutBelow(ms.tail, k, v);
    }
  }

  lemma BelowMore(ms: Members, k: Key, v: Value, k': Key)
    requires Below(ms, k) && KeyLess(k, k')
    ensures Below(Concat(ms, Cons(k, v, Nil)), k')
  {
    if ms.Cons? {
      KeyTransitive(ms.key, k, k');
      BelowMore(ms.tail, k, v, k');
    }
  }

  /** The entries from position n on. */
  function Drop(ms: Members, n: nat): (r: Members)
    requires n <= Count(ms)
    ensures Count(r) == Count(ms) - n
  {
    if n == 0 then ms else Drop(ms.tail, n - 1)
  }

  lemma {:induction false} DropStep(ms: Members, n: nat)
    requires n < Count(ms)
    ensures Drop(ms, n).Cons? && Drop(ms, n + 1) == Drop(ms, n).tail
  {
    if n > 0 { DropStep(ms.tail, n - 1); }
  }

  /** In an ordered map, looking up the key of an entry finds the entry. */
  lemma {:induction false} EntryFound(ms: Members, n: nat)
    requires Sorted(ms) && n < Count(ms)
    ensures Drop(ms, n).Cons? && Find(ms, Drop(ms, n).key) == Some(Drop(ms, n).value)
    ensures Drop(ms, n).key == ms.key || KeyLess(ms.key, Drop(ms, n).key)
  {
    if n > 0 {
      EntryFound(ms.tail, n - 1);
      KeyTrichotomy(ms.key, ms.tail.key);
      KeyTrichotomy(ms.key, Drop(ms, n).key);
      if Drop(ms, n).key != ms.tail.key { KeyTransitive(ms.key, ms.tail.key, Drop(ms, n).key); }
    }
  }

  // ----- A measure -----

  /** Number of nodes below a value. */
  function Weight(j: Json): nat {
    match j
    case Array(ms) => 1 + MembersWeight(ms)
    case Object(ms) => 1 + MembersWeight(ms)
    case _ => 0
  }

  function MembersWeight(ms: Members): nat {
    match ms
    case Nil => 0
    case Cons(_, v, t) => 1 + Weight(v.json) + MembersWeight(t)
  }

  lemma {:induction false} FetchWeight(ms: Members, k: Key)
    requires ms.Cons?
    ensures Weight(Fetch(ms, k).json) < MembersWeight(ms)
  {
    if ms.key != k {
      assert Fetch(ms, k) == Fetch(ms.tail, k);
      if ms.tail.Cons? {
        FetchWeight(ms.tail, k);
      } else {
        assert Fetch(ms.tail, k) == NULL_VALUE;
      }
    }
  }

  // ----- Source offsets -----

  /** The value without its source offsets, at any depth. */
  function Bare(v: Value): Value { Value(BareJson(v.json), 0, 0) }

  function BareJson(j: Json): Json {
    match j
    case Array(ms) => Array(BareMembers(ms))
    case Object(ms) => Object(BareMembers(ms))
    case _ => j
  }

  function BareMembers(ms: Members): Members {
    match ms
    case Nil => Nil
    case Cons(k, v, t) => Cons(k, Value(BareJson(v.json), 0, 0), BareMembers(t))
  }

  lemma BareFind(ms: Members, k: Key)
    ensures Find(BareMembers(ms), k) ==
            match Find(ms, k) { case None => None case Some(v) => Some(Bare(v)) }
  {}

  lemma BarePut(ms: Members, k: Key, v: Value)
    ensures BareMembers(Put(ms, k, v)) == Put(BareMembers(ms), k, Bare(v))
  {
    if ms.Cons? { BareFind(ms.tail, k); }
  }

  // ----- Arrays -----

  function LastKey(ms: Members): Key
    requires ms.Cons?
  {
    if ms.tail.Nil? then ms.key else LastKey(ms.tail)
  }

  /** Value::size() of an array: highest index plus one, in 32-bit unsigned arithmetic. */
  function ArraySize(ms: Members): nat {
    if ms.Nil? then 0
    else match LastKey(ms)
      case Index(i) => (i + 1) % TWO_TO_THE_32
      case Name(_) => 0
  }

  // ----- Well-formed values -----

  predicate IndexKeys(ms: Members) {
    match ms
    case Nil => true
    case Cons(k, _, t) => k.Index? && k.index < TWO_TO_THE_32 && IndexKeys(t)
  }

  predicate NameKeys(ms: Members) {
    match ms
    case Nil => true
    case Cons(k, _, t) => k.Name? && |k.name| < NAME_LIMIT && NameKeys(t)
  }

  /**
    What the C++ types guarantee of every Value: 64-bit integers, strings that have a 32-bit
    length prefix, and ordered maps with keys of one kind.
  */
  predicate WellFormed(j: Json) {
    match j
    case Int(i) => MIN_INT64 <= i <= MAX_INT64
    case UInt(u) => 0 <= u <= MAX_UINT64
    case Str(s) => |s| <= STRING_LIMIT
    case Array(ms) => Sorted(ms) && IndexKeys(ms) && WellFormedMembers(ms)
    case Object(ms) => Sorted(ms) && NameKeys(ms) && WellFormedMembers(ms)
    case _ => true
  }

  predicate WellFormedMembers(ms: Members) {
    match ms
    case Nil => true
    case Cons(_, v, t) => WellFormed(v.json) && WellFormedMembers(t)
  }

  lemma FetchWellFormed(ms: Members, k: Key)
    requires WellFormedMembers(ms)
    ensures WellFormed(Fetch(ms, k).json)
  {
    if ms.Cons? && ms.key != k { FetchWellFormed(ms.tail, k); }
  }
}
