/** Value::operator<, operator== and compare, and the laws they obey together. */
module Order {
  import opened Bytes
  import opened Values

  const MAP_LIMIT: nat := 0x8000_0000

  /** The ValueType enumerators. */
  function TypeOf(j: Json): nat {
    match j
    case Null => 0
    case Int(_) => 1
    case UInt(_) => 2
    case Real(_) => 3
    case NullStr => 4
    case Str(_) => 4
    case Bool(_) => 5
    case Array(_) => 6
    case Object(_) => 7
  }

  /** int(a - b) for two size_t: the low 32 bits of the difference, read as a signed number. */
  function SizeDelta(a: nat, b: nat): int {
    var d := (a - b) % TWO_TO_THE_32;
    if d > MAX_INT then d - TWO_TO_THE_32 else d
  }

  /** Value::operator<. */
  predicate Less(a: Json, b: Json)
    decreases Weight(a) + Weight(b)
  {
    if TypeOf(a) != TypeOf(b) then TypeOf(a) < TypeOf(b)
    else match a
      case Null => false
      case Int(i) => i < b.i
      case UInt(u) => u < b.u
      case Real(r) => r < b.r
      case NullStr => b.Str?
      case Str(s) => b.Str? && BytesLess(s, b.s)
      case Bool(x) => !x && b.b
      case Array(ms) =>
        var delta := SizeDelta(Count(ms), Count(b.ms));
        if delta != 0 then delta < 0 else MembersLess(ms, b.ms)
      case Object(ms) =>
        var delta := SizeDelta(Count(ms), Count(b.ms));
        if delta != 0 then delta < 0 else MembersLess(ms, b.ms)
  }

  /** std::map's operator<: lexicographic over the entries, comparing them both ways. */
  predicate MembersLess(a: Members, b: Members)
    decreases MembersWeight(a) + MembersWeight(b)
  {
    if b.Nil? then false
    else if a.Nil? then true
    else if EntryLess(a.key, a.value.json, b.key, b.value.json) then true
    else if EntryLess(b.key, b.value.json, a.key, a.value.json) then false
    else MembersLess(a.tail, b.tail)
  }

  /** std::pair's operator<. */
  predicate EntryLess(k: Key, v: Json, l: Key, w: Json)
    decreases Weight(v) + Weight(w) + 1
  {
    KeyLess(k, l) || (!KeyLess(l, k) && Less(v, w))
  }

  /** Value::operator==. */
  predicate Equal(a: Json, b: Json)
    decreases a
  {
    TypeOf(a) == TypeOf(b) &&
    match a
    case Null => true
    case Int(i) => i == b.i
    case UInt(u) => u == b.u
    case Real(r) => r == b.r
    case NullStr => b.NullStr?
    case Str(s) => b.Str? && s == b.s
    case Bool(x) => x == b.b
    case Array(ms) => Count(ms) == Count(b.ms) && MembersEqual(ms, b.ms)
    case Object(ms) => Count(ms) == Count(b.ms) && MembersEqual(ms, b.ms)
  }

  predicate MembersEqual(a: Members, b: Members)
    decreases a
  {
    if a.Nil? || b.Nil? then a.Nil? && b.Nil?
    else a.key == b.key && Equal(a.value.json, b.value.json) && MembersEqual(a.tail, b.tail)
  }

  /** Value::compare. */
  function Compare(a: Json, b: Json): int {
    if Less(a, b) then -1 else if Less(b, a) then 1 else 0
  }

  /** Every map in the tree has fewer entries than the limit. */
  predicate SmallMaps(j: Json, limit: nat := MAP_LIMIT) {
    match j
    case Array(ms) => Count(ms) < limit && SmallMembers(ms, limit)
    case Object(ms) => Count(ms) < limit && SmallMembers(ms, limit)
    case _ => true
  }

  predicate SmallMembers(ms: Members, limit: nat := MAP_LIMIT) {
    match ms
    case Nil => true
    case Cons(_, v, t) => SmallMaps(v.json, limit) && SmallMembers(t, limit)
  }

  lemma SizeDeltaSign(a: nat, b: nat)
    requires a < MAP_LIMIT && b < MAP_LIMIT
    ensures SizeDelta(a, b) == a - b
  {}

  // ----- operator== is equality up to source offsets -----

  lemma {:induction false} EqualIsBareEquality(a: Json, b: Json)
    ensures Equal(a, b) <==> BareJson(a) == BareJson(b)
    decreases a
  {
    if a.Array? && b.Array? {
      MembersEqualIsBareEquality(a.ms, b.ms);
      BareCount(a.ms); BareCount(b.ms);
    } else if a.Object? && b.Object? {
      MembersEqualIsBareEquality(a.ms, b.ms);
      BareCount(a.ms); BareCount(b.ms);
    }
  }

  lemma {:induction false} MembersEqualIsBareEquality(a: Members, b: Members)
    ensures MembersEqual(a, b) <==> BareMembers(a) == BareMembers(b)
    decreases a
  {
    if a.Cons? && b.Cons? {
      EqualIsBareEquality(a.value.json, b.value.json);
      MembersEqualIsBareEquality(a.tail, b.tail);
    }
  }

  lemma BareCount(ms: Members)
    ensures Count(BareMembers(ms)) == Count(ms)
  {}

  // ----- Trichotomy -----

  /** Exactly one of a < b, a == b, b < a. */
  predicate ExactlyOne(a: Json, b: Json) {
    && (Less(a, b) ==> !Equal(a, b) && !Less(b, a))
    && (Equal(a, b) ==> !Less(a, b) && !Less(b, a))
    && (Less(a, b) || Equal(a, b) || Less(b, a))
  }

  /**
    No size difference of 2^31, which is negative both ways, is met on the way to the first place
    where the two differ.
  */
  predicate Comparable(a: Json, b: Json)
    decreases Weight(a) + Weight(b)
  {
    (a.Array? && b.Array?) || (a.Object? && b.Object?) ==>
      (Count(a.ms) - Count(b.ms)) % TWO_TO_THE_32 != MAP_LIMIT &&
      (SizeDelta(Count(a.ms), Count(b.ms)) == 0 ==> MembersComparable(a.ms, b.ms))
  }

  predicate MembersComparable(a: Members, b: Members)
    decreases MembersWeight(a) + MembersWeight(b)
  {
    a.Cons? && b.Cons? && a.key == b.key ==>
      if Equal(a.value.json, b.value.json) then MembersComparable(a.tail, b.tail)
      else Comparable(a.value.json, b.value.json)
  }

  /** For all trees: one of the three holds; it is the only one if and only if the trees are comparable. */
  lemma {:induction false} Trichotomy(a: Json, b: Json)
    ensures Less(a, b) || Less(b, a) || Equal(a, b)
    ensures Equal(a, b) ==> !Less(a, b) && !Less(b, a)
    ensures !(Less(a, b) && Less(b, a)) <==> Comparable(a, b)
    decreases Weight(a) + Weight(b)
  {
    if TypeOf(a) == TypeOf(b) {
      match a
      case Str(s) => if b.Str? { BytesTrichotomy(s, b.s); }
      case Array(ms) =>
        SizeDeltaBothWays(Count(ms), Count(b.ms));
        MembersTrichotomy(ms, b.ms);
      case Object(ms) =>
        SizeDeltaBothWays(Count(ms), Count(b.ms));
        MembersTrichotomy(ms, b.ms);
      case _ =>
    }
  }

  lemma {:induction false} MembersTrichotomy(a: Members, b: Members)
    ensures MembersLess(a, b) || MembersLess(b, a) || MembersEqual(a, b)
    ensures MembersEqual(a, b) ==> !MembersLess(a, b) && !MembersLess(b, a) && Count(a) == Count(b)
    ensures !(MembersLess(a, b) && MembersLess(b, a)) <==> MembersComparable(a, b)
    decreases MembersWeight(a) + MembersWeight(b)
  {
    if a.Cons? && b.Cons? {
      KeyTrichotomy(a.key, b.key);
      Trichotomy(a.value.json, b.value.json);
      MembersTrichotomy(a.tail, b.tail);
    }
  }

  lemma SizeDeltaBothWays(a: nat, b: nat)
    ensures SizeDelta(a, b) == 0 <==> SizeDelta(b, a) == 0
    ensures SizeDelta(a, b) == 0 <==> (a - b) % TWO_TO_THE_32 == 0
    ensures SizeDelta(a, b) < 0 && SizeDelta(b, a) < 0 <==> (a - b) % TWO_TO_THE_32 == MAP_LIMIT
    ensures SizeDelta(a, b) > 0 ==> SizeDelta(b, a) < 0
    ensures SizeDelta(b, a) > 0 ==> SizeDelta(a, b) < 0
    ensures a == b ==> SizeDelta(a, b) == 0
  {
    var d := (a - b) % TWO_TO_THE_32;
    assert (b - a) % TWO_TO_THE_32 == if d == 0 then 0 else TWO_TO_THE_32 - d;
  }

  /** Trees with small maps are comparable. */
  lemma {:induction false} SmallIsComparable(a: Json, b: Json)
    requires SmallMaps(a) && SmallMaps(b)
    ensures Comparable(a, b)
    decreases Weight(a) + Weight(b)
  {
    if (a.Array? && b.Array?) || (a.Object? && b.Object?) {
      SizeDeltaSign(Count(a.ms), Count(b.ms));
      SmallMembersAreComparable(a.ms, b.ms);
    }
  }

  lemma {:induction false} SmallMembersAreComparable(a: Members, b: Members)
    requires SmallMembers(a) && SmallMembers(b)
    ensures MembersComparable(a, b)
    decreases MembersWeight(a) + MembersWeight(b)
  {
    if a.Cons? && b.Cons? {
      SmallMembersAreComparable(a.tail, b.tail);
      SmallIsComparable(a.value.json, b.value.json);
    }
  }

  // ----- Transitivity -----

  /** operator< does not look at source offsets. */
  lemma {:induction false} LessIsBare(a: Json, b: Json)
    ensures Less(a, b) == Less(BareJson(a), BareJson(b))
    decreases Weight(a) + Weight(b)
  {
    if TypeOf(a) == TypeOf(b) && (a.Array? || a.Object?) {
      MembersLessIsBare(a.ms, b.ms);
      BareCount(a.ms); BareCount(b.ms);
    }
  }

  lemma {:induction false} MembersLessIsBare(a: Members, b: Members)
    ensures MembersLess(a, b) == MembersLess(BareMembers(a), BareMembers(b))
    decreases MembersWeight(a) + MembersWeight(b)
  {
    if a.Cons? && b.Cons? {
      LessIsBare(a.value.json, b.value.json);
      LessIsBare(b.value.json, a.value.json);
      MembersLessIsBare(a.tail, b.tail);
    }
  }

  /** Equal values may stand for one another on either side of operator<. */
  lemma LessRespectsEqual(a: Json, b: Json, c: Json)
    ensures Equal(a, b) ==> Less(a, c) == Less(b, c)
    ensures Equal(a, b) ==> Less(c, a) == Less(c, b)
  {
    EqualIsBareEquality(a, b);
    LessIsBare(a, c); LessIsBare(b, c);
    LessIsBare(c, a); LessIsBare(c, b);
  }

  lemma {:induction false} Transitivity(a: Json, b: Json, c: Json)
    requires SmallMaps(a) && SmallMaps(b) && SmallMaps(c)
    requires Less(a, b) && Less(b, c)
    ensures Less(a, c)
    decreases Weight(a) + Weight(b) + Weight(c)
  {
    if TypeOf(a) == TypeOf(b) == TypeOf(c) {
      match a
      case Str(s) => if b.Str? && c.Str? { BytesTransitive(s, b.s, c.s); }
      case Array(ms) => ContainerTransitivity(ms, b.ms, c.ms);
      case Object(ms) => ContainerTransitivity(ms, b.ms, c.ms);
      case _ =>
    }
  }

  lemma {:induction false} ContainerTransitivity(a: Members, b: Members, c: Members)
    requires SmallMembers(a) && SmallMembers(b) && SmallMembers(c)
    requires Count(a) < MAP_LIMIT && Count(b) < MAP_LIMIT && Count(c) < MAP_LIMIT
    ensures SizeDelta(Count(a), Count(b)) == Count(a) - Count(b)
    ensures SizeDelta(Count(b), Count(c)) == Count(b) - Count(c)
    ensures SizeDelta(Count(a), Count(c)) == Count(a) - Count(c)
    ensures MembersLess(a, b) && MembersLess(b, c) ==> MembersLess(a, c)
    decreases MembersWeight(a) + MembersWeight(b) + MembersWeight(c)
  {
    SizeDeltaSign(Count(a), Count(b));
    SizeDeltaSign(Count(b), Count(c));
    SizeDeltaSign(Count(a), Count(c));
    if a.Cons? && b.Cons? && c.Cons? && MembersLess(a, b) && MembersLess(b, c) {
      EntryTransitivity(a, b, c);
      ContainerTransitivity(a.tail, b.tail, c.tail);
    }
  }

  /** The heads of three lists: strictly smaller composes, and equivalent heads may be exchanged. */
  lemma {:induction false} EntryTransitivity(a: Members, b: Members, c: Members)
    requires a.Cons? && b.Cons? && c.Cons?
    requires SmallMembers(a) && SmallMembers(b) && SmallMembers(c)
    ensures HeadLess(a, b) && HeadLess(b, c) ==> HeadLess(a, c)
    ensures HeadLess(a, b) && HeadSame(b, c) ==> HeadLess(a, c)
    ensures HeadSame(a, b) && HeadLess(b, c) ==> HeadLess(a, c)
    ensures HeadSame(a, b) && HeadSame(b, c) ==> HeadSame(a, c)
    ensures !(HeadLess(a, c) && HeadLess(c, a))
    ensures HeadSame(a, b) <==> !HeadLess(a, b) && !HeadLess(b, a)
    ensures HeadSame(b, c) <==> !HeadLess(b, c) && !HeadLess(c, b)
    ensures HeadSame(a, c) <==> !HeadLess(a, c) && !HeadLess(c, a)
    decreases MembersWeight(a) + MembersWeight(b) + MembersWeight(c), 0
  {
    var (x, y, z) := (a.value.json, b.value.json, c.value.json);
    KeyTrichotomy(a.key, b.key); KeyTrichotomy(b.key, c.key); KeyTrichotomy(a.key, c.key);
    if KeyLess(a.key, b.key) && KeyLess(b.key, c.key) { KeyTransitive(a.key, b.key, c.key); }
    Trichotomy(x, y); Trichotomy(y, z); Trichotomy(x, z);
    SmallIsComparable(x, y); SmallIsComparable(y, z); SmallIsComparable(x, z);
    LessRespectsEqual(x, y, z); LessRespectsEqual(y, z, x);
    EqualIsBareEquality(x, y); EqualIsBareEquality(y, z); EqualIsBareEquality(x, z);
    if Less(x, y) && Less(y, z) { Transitivity(x, y, z); }
  }

  ghost predicate HeadLess(a: Members, b: Members)
    requires a.Cons? && b.Cons?
  {
    EntryLess(a.key, a.value.json, b.key, b.value.json)
  }

  ghost predicate HeadSame(a: Members, b: Members)
    requires a.Cons? && b.Cons?
  {
    a.key == b.key && Equal(a.value.json, b.value.json)
  }

  // ----- The laws -----

  /**
    For all trees, operator< is irreflexive and compare() returns zero exactly for equal values;
    exactly one of a < b, a == b, b < a holds, and compare() is antisymmetric, if and only if the
    two are comparable, which trees with fewer than 2^31 entries in every map always are.
  */
  lemma StrictTotalOrder(a: Json, b: Json)
    ensures !Less(a, a)
    ensures ExactlyOne(a, b) <==> Comparable(a, b)
    ensures Compare(a, b) == 0 <==> Equal(a, b)
    ensures Compare(a, b) == -Compare(b, a) <==> Comparable(a, b)
    ensures SmallMaps(a) && SmallMaps(b) ==> Comparable(a, b)
  {
    EqualIsBareEquality(a, a);
    Trichotomy(a, a);
    Trichotomy(a, b);
    EqualIsBareEquality(a, b);
    EqualIsBareEquality(b, a);
    if SmallMaps(a) && SmallMaps(b) { SmallIsComparable(a, b); }
  }

  // ----- The direction -----

  /** The types in the order null, int, uint, real, string, boolean, array, object. */
  predicate EarlierType(a: Json, b: Json) {
    match a
    case Null => !b.Null?
    case Int(_) => !b.Null? && !b.Int?
    case UInt(_) => !b.Null? && !b.Int? && !b.UInt?
    case Real(_) => b.Str? || b.NullStr? || b.Bool? || b.Array? || b.Object?
    case NullStr => b.Bool? || b.Array? || b.Object?
    case Str(_) => b.Bool? || b.Array? || b.Object?
    case Bool(_) => b.Array? || b.Object?
    case Array(_) => b.Object?
    case Object(_) => false
  }

  predicate SameType(a: Json, b: Json) { !EarlierType(a, b) && !EarlierType(b, a) }

  /** compare() is negative exactly for the smaller value, and an earlier type is smaller whatever the values. */
  lemma CompareIsNegativeBelow(a: Json, b: Json)
    ensures Compare(a, b) < 0 <==> Less(a, b)
    ensures Compare(a, b) > 0 <==> Less(b, a) && !Less(a, b)
    ensures !SameType(a, b) ==> (Less(a, b) <==> EarlierType(a, b))
  {}

  /** Numbers ascend, false is below true, and strings ascend as in a dictionary. */
  lemma ScalarsAscend(i: int, k: int, r: real, s: real, x: bytes, y: bytes)
    ensures Less(Int(i), Int(k)) <==> i < k
    ensures Less(UInt(i), UInt(k)) <==> i < k
    ensures Less(Real(r), Real(s)) <==> r < s
    ensures Less(Bool(false), Bool(true)) && !Less(Bool(true), Bool(false))
    ensures Less(Str(x), Str(y)) <==> Lexicographic(x, y)
  {
    BytesLessIsLexicographic(x, y);
  }

  /** The smaller key or, with one key, the smaller value. */
  ghost predicate EntryAscends(k: Key, v: Json, l: Key, w: Json) {
    (match (k, l)
     case (Index(i), Index(j)) => i < j
     case (Name(s), Name(t)) => Lexicographic(s, t)
     case _ => k.Index?) ||
    (k == l && Less(v, w))
  }

  /** Containers of one type and size ascend with the first entry that differs. */
  lemma ContainersAscend(a: Members, b: Members, n: nat)
    requires SmallMembers(a) && SmallMembers(b)
    requires Count(a) == Count(b) && n < Count(a)
    requires forall i: nat | i < n :: HeadSame(Drop(a, i), Drop(b, i))
    requires !HeadSame(Drop(a, n), Drop(b, n))
    ensures var (c, d) := (Drop(a, n), Drop(b, n));
            var ascends := EntryAscends(c.key, c.value.json, d.key, d.value.json);
            (Less(Array(a), Array(b)) <==> ascends) && (Less(Object(a), Object(b)) <==> ascends)
  {
    FirstDifferenceDecides(a, b, n);
    var (k, l) := (Drop(a, n).key, Drop(b, n).key);
    KeyTrichotomy(k, l);
    if k.Name? && l.Name? { BytesLessIsLexicographic(k.name, l.name); }
  }

  /** operator<= is transitive too, so compare() sorts. */
  lemma CompareTransitivity(a: Json, b: Json, c: Json)
    requires SmallMaps(a) && SmallMaps(b) && SmallMaps(c)
    requires Compare(a, b) <= 0 && Compare(b, c) <= 0
    ensures Compare(a, c) <= 0
    ensures Less(a, b) || Less(b, c) ==> Compare(a, c) < 0
  {
    StrictTotalOrder(a, b);
    StrictTotalOrder(b, c);
    StrictTotalOrder(a, c);
    if Less(a, b) && Less(b, c) {
      Transitivity(a, b, c);
    } else if Less(a, b) {
      LessRespectsEqual(b, c, a);
    } else {
      LessRespectsEqual(a, b, c);
      EqualIsBareEquality(a, b); EqualIsBareEquality(b, c); EqualIsBareEquality(a, c);
    }
  }

  /** n elements from index i on, all of them null. */
  function Nulls(i: nat, n: nat): (ms: Members)
    ensures Count(ms) == n && forall limit :: SmallMembers(ms, limit)
    decreases n
  {
    if n == 0 then Nil else Cons(Index(i), NULL_VALUE, Nulls(i + 1, n - 1))
  }

  lemma {:induction false} Widened(j: Json, small: nat, large: nat)
    requires SmallMaps(j, small) && small <= large
    ensures SmallMaps(j, large)
  {
    if j.Array? || j.Object? { MembersWidened(j.ms, small, large); }
  }

  lemma {:induction false} MembersWidened(ms: Members, small: nat, large: nat)
    requires SmallMembers(ms, small) && small <= large
    ensures SmallMembers(ms, large)
  {
    if ms.Cons? {
      Widened(ms.value.json, small, large);
      MembersWidened(ms.tail, small, large);
    }
  }

  /** An array of 2^31 elements: the size difference to the empty array wraps, and each is below the other. */
  lemma OrderFailsOnHugeMaps(ms: Members)
    requires Count(ms) == MAP_LIMIT
    ensures Less(Array(ms), Array(Nil)) && Less(Array(Nil), Array(ms))
  {
    assert SizeDelta(MAP_LIMIT, 0) < 0 && SizeDelta(0, MAP_LIMIT) < 0;
  }

  /** operator< is a strict total order on the trees with maps below a limit. */
  ghost predicate Orders(limit: nat) {
    && (forall a, b | SmallMaps(a, limit) && SmallMaps(b, limit) :: ExactlyOne(a, b))
    && (forall a, b, c | SmallMaps(a, limit) && SmallMaps(b, limit) && SmallMaps(c, limit) ::
          Less(a, b) && Less(b, c) ==> Less(a, c))
  }

  /** And it is one if and only if the limit is at most 2^31. */
  lemma OrderHoldsExactly(limit: nat)
    ensures Orders(limit) <==> limit <= MAP_LIMIT
  {
    if limit <= MAP_LIMIT {
      forall a, b | SmallMaps(a, limit) && SmallMaps(b, limit)
        ensures ExactlyOne(a, b)
      {
        Widened(a, limit, MAP_LIMIT);
        Widened(b, limit, MAP_LIMIT);
        StrictTotalOrder(a, b);
      }
      forall a, b, c | SmallMaps(a, limit) && SmallMaps(b, limit) && SmallMaps(c, limit) && Less(a, b) && Less(b, c)
        ensures Less(a, c)
      {
        Widened(a, limit, MAP_LIMIT);
        Widened(b, limit, MAP_LIMIT);
        Widened(c, limit, MAP_LIMIT);
        Transitivity(a, b, c);
      }
    } else {
      var huge := Nulls(0, MAP_LIMIT);
      OrderFailsOnHugeMaps(huge);
      assert SmallMaps(Array(huge), limit) && SmallMaps(Array(Nil), limit);
      assert !ExactlyOne(Array(huge), Array(Nil));
    }
  }

  /** Containers sort by the size of their maps first, and null strings below all other strings. */
  lemma SizeComesFirst(a: Members, b: Members, s: bytes)
    requires Count(a) < MAP_LIMIT && Count(b) < MAP_LIMIT
    ensures Count(a) < Count(b) ==> Less(Array(a), Array(b)) && !Less(Array(b), Array(a))
    ensures Count(a) < Count(b) ==> Less(Object(a), Object(b)) && !Less(Object(b), Object(a))
    ensures Count(a) == Count(b) ==> Less(Array(a), Array(b)) == Less(Object(a), Object(b)) == MembersLess(a, b)
    ensures Less(NullStr, Str(s)) && !Less(Str(s), NullStr)
  {
    SizeDeltaSign(Count(a), Count(b));
    SizeDeltaSign(Count(b), Count(a));
  }

  /** The first place where two maps of one size differ decides. */
  lemma {:induction false} FirstDifferenceDecides(a: Members, b: Members, n: nat)
    requires SmallMembers(a) && SmallMembers(b)
    requires Count(a) == Count(b) && n < Count(a)
    requires forall i: nat | i < n :: HeadSame(Drop(a, i), Drop(b, i))
    requires !HeadSame(Drop(a, n), Drop(b, n))
    ensures MembersLess(a, b) <==> HeadLess(Drop(a, n), Drop(b, n))
  {
    EntryTransitivity(a, b, a);
    if n == 0 {
      assert !HeadSame(a, b);
    } else {
      assert HeadSame(Drop(a, 0), Drop(b, 0));
      forall i: nat | i < n - 1
        ensures HeadSame(Drop(a.tail, i), Drop(b.tail, i))
      {
        assert HeadSame(Drop(a, i + 1), Drop(b, i + 1));
      }
      FirstDifferenceDecides(a.tail, b.tail, n - 1);
    }
  }
}
