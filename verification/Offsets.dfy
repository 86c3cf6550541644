/** The source offsets of a parsed tree: each value's part of the document is a document for that value. */
module Offsets {
  import opened Bytes
  import opened Values
  import opened Order
  import opened Strings
  import opened Numbers
  import opened Lexer
  import opened Syntax
  import opened Slices

  predicate Placed(v: Value, lo: int, hi: int) { lo <= v.start < v.limit <= hi }

  /** The two values come from parts of the document that do not overlap. */
  predicate Disjoint(v: Value, w: Value) { v.limit <= w.start || w.limit <= v.start }

  predicate Apart(v: Value, ms: Members) {
    match ms
    case Nil => true
    case Cons(_, w, t) => Disjoint(v, w) && Apart(v, t)
  }

  /** Parsing a value's own part of the document succeeds, uses it up and gives an equal value. */
  ghost predicate Reparses(doc: bytes, v: Value, toDouble: ToDouble)
    requires Placed(v, 0, |doc|)
  {
    forall root: Value ::
      var r := Parse(doc[v.start..v.limit], root, toDouble);
      r.Ok? && r.pos == v.limit - v.start && Equal(r.value.json, v.json)
  }

  /** No white space and no comment, but the value's own text. */
  predicate Begins(doc: bytes, pos: nat)
    requires pos < |doc|
  {
    !IsSpace(doc[pos]) && doc[pos] != SLASH
  }

  lemma {:induction false} TokenBegins(doc: bytes, p: nat)
    requires p <= |doc| && SkipComments(doc, p).start < |doc|
    requires !SkipComments(doc, p).kind.ErrorToken?
    ensures Begins(doc, SkipComments(doc, p).start)
    decreases |doc| - p
  {
    var t := Lex(doc, p);
    if t.kind.Comment? { TokenBegins(doc, t.end); } else { assert t.start < |doc| ==> !IsSpace(doc[t.start]); }
  }

  /** Offsets are right for a value and everything in it. */
  ghost predicate Faithful(doc: bytes, v: Value, toDouble: ToDouble)
    decreases v
  {
    && Placed(v, 0, |doc|)
    && Begins(doc, v.start)
    && Reparses(doc, v, toDouble)
    && match v.json
       case Array(ms) => MembersFaithful(doc, ms, v.start + 1, v.limit - 1, toDouble)
       case Object(ms) => MembersFaithful(doc, ms, v.start + 1, v.limit - 1, toDouble)
       case _ => true
  }

  /** Members lie between lo and hi, beside one another. */
  ghost predicate MembersFaithful(doc: bytes, ms: Members, lo: int, hi: int, toDouble: ToDouble)
    decreases ms
  {
    match ms
    case Nil => true
    case Cons(_, v, t) =>
      Placed(v, lo, hi) && Faithful(doc, v, toDouble) && Apart(v, t) && MembersFaithful(doc, t, lo, hi, toDouble)
  }

  lemma {:induction false} Widen(doc: bytes, ms: Members, lo: int, mid: int, hi: int, toDouble: ToDouble)
    requires MembersFaithful(doc, ms, lo, mid, toDouble) && mid <= hi
    ensures MembersFaithful(doc, ms, lo, hi, toDouble)
  {
    hide Faithful;
    if ms.Cons? { Widen(doc, ms.tail, lo, mid, hi, toDouble); }
  }

  lemma {:induction false} LaterIsApart(doc: bytes, ms: Members, lo: int, mid: int, v: Value, toDouble: ToDouble)
    requires MembersFaithful(doc, ms, lo, mid, toDouble) && mid <= v.start
    ensures Apart(v, ms)
  {
    hide Faithful;
    if ms.Cons? { LaterIsApart(doc, ms.tail, lo, mid, v, toDouble); }
  }

  lemma ApartPut(w: Value, ms: Members, k: Key, v: Value)
    requires Apart(w, ms) && Disjoint(w, v)
    ensures Apart(w, Put(ms, k, v))
  {}

  /** A value from behind all others, put in as a new member or in place of an old one. */
  lemma {:induction false} PutFaithful(doc: bytes, ms: Members, lo: int, mid: int, hi: int, k: Key, v: Value, toDouble: ToDouble)
    requires MembersFaithful(doc, ms, lo, mid, toDouble) && lo <= mid
    requires Faithful(doc, v, toDouble) && Placed(v, mid, hi)
    ensures MembersFaithful(doc, Put(ms, k, v), lo, hi, toDouble)
  {
    hide Faithful;
    Widen(doc, ms, lo, mid, hi, toDouble);
    LaterIsApart(doc, ms, lo, mid, v, toDouble);
    if ms.Cons? {
      PutFaithful(doc, ms.tail, lo, mid, hi, k, v, toDouble);
      ApartPut(ms.value, ms.tail, k, v);
    }
  }

  lemma ValueReparses(doc: bytes, p: nat, depth: nat, before: Value, toDouble: ToDouble)
    requires p <= |doc| && ParseValue(doc, p, depth, before, toDouble).Ok?
    ensures var r := ParseValue(doc, p, depth, before, toDouble);
            Placed(r.value, p, r.pos) && r.value.limit == r.pos && r.value.start == SkipComments(doc, p).start &&
            Reparses(doc, r.value, toDouble) && Begins(doc, r.value.start)
  {
    TokenBegins(doc, p);
    hide ParseMembers, ParseArray, SkipComments, DecodeNumber, DecodeString, Equal;
    var r := ParseValue(doc, p, depth, before, toDouble);
    var start := SkipComments(doc, p).start;
    SkipToStart(doc, p);
    assert ParseValue(doc, start, depth, before, toDouble) == r;
    var sub := doc[r.value.start..r.value.limit];
    forall root: Value
      ensures var q := Parse(sub, root, toDouble);
              q.Ok? && q.pos == r.value.limit - r.value.start && Equal(q.value.json, r.value.json)
    {
      ValueSlice(sub, doc, start, r.pos, start, depth, 0, before, root, toDouble);
      EqualIsBareEquality(Parse(sub, root, toDouble).value.json, r.value.json);
    }
  }

  lemma {:induction false} ParsedIsFaithful(doc: bytes, p: nat, depth: nat, before: Value, toDouble: ToDouble)
    requires p <= |doc| && ParseValue(doc, p, depth, before, toDouble).Ok?
    ensures var r := ParseValue(doc, p, depth, before, toDouble);
            Faithful(doc, r.value, toDouble) && Placed(r.value, p, r.pos)
    decreases |doc| - p, 0
  {
    hide ParseMembers, ParseArray, SkipComments, IsInt64Text, DecodeString, Reparses;
    ValueReparses(doc, p, depth, before, toDouble);
    var t := SkipComments(doc, p);
    if t.kind.ObjectBegin? {
      MembersAreFaithful(doc, t.end, depth + 1, [], Nil, t.start + 1, toDouble);
    } else if t.kind.ArrayBegin? {
      ArrayIsFaithful(doc, t.end, depth + 1, t.start + 1, toDouble);
    }
  }

  lemma {:induction false} ArrayIsFaithful(doc: bytes, p: nat, depth: nat, lo: nat, toDouble: ToDouble)
    requires lo <= p <= |doc| && ParseArray(doc, p, depth, toDouble).Ok?
    ensures var r := ParseArray(doc, p, depth, toDouble);
            MembersFaithful(doc, r.value, lo, r.pos - 1, toDouble)
    decreases |doc| - p, 2
  {
    hide ParseItems, SpaceEnd;
    if At(doc, SpaceEnd(doc, p)) != RBRACKET {
      ItemsAreFaithful(doc, SpaceEnd(doc, p), depth, 0, Nil, lo, toDouble);
    }
  }

  lemma {:induction false} ItemsAreFaithful(doc: bytes, p: nat, depth: nat, index: nat, ms: Members, lo: nat, toDouble: ToDouble)
    requires lo <= p <= |doc| && ParseItems(doc, p, depth, index, ms, toDouble).Ok?
    requires MembersFaithful(doc, ms, lo, p, toDouble)
    ensures var r := ParseItems(doc, p, depth, index, ms, toDouble);
            MembersFaithful(doc, r.value, lo, r.pos - 1, toDouble)
    decreases |doc| - p, 1
  {
    hide ParseValue, SkipComments, Put, Fetch, Faithful, MembersFaithful;
    var k := Index(index);
    ParsedIsFaithful(doc, p, depth, Fetch(ms, k), toDouble);
    var r := ParseValue(doc, p, depth, Fetch(ms, k), toDouble);
    var t := SkipComments(doc, r.pos);
    PutFaithful(doc, ms, lo, p, r.pos, k, r.value, toDouble);
    var next := Put(ms, k, r.value);
    if t.kind.ArrayEnd? {
      Widen(doc, next, lo, r.pos, t.end - 1, toDouble);
    } else {
      Widen(doc, next, lo, r.pos, t.end, toDouble);
      ItemsAreFaithful(doc, t.end, depth, index + 1, next, lo, toDouble);
    }
  }

  lemma {:induction false} MembersAreFaithful(doc: bytes, p: nat, depth: nat, name: bytes, ms: Members, lo: nat, toDouble: ToDouble)
    requires lo <= p <= |doc| && ParseMembers(doc, p, depth, name, ms, toDouble).Ok?
    requires MembersFaithful(doc, ms, lo, p, toDouble)
    ensures var r := ParseMembers(doc, p, depth, name, ms, toDouble);
            MembersFaithful(doc, r.value, lo, r.pos - 1, toDouble)
    decreases |doc| - p, 2
  {
    hide ParseNamed, NameAt, SeparatorAt, Faithful, MembersFaithful;
    var naming := NameAt(doc, p, name);
    if naming.NoMember? {
      Widen(doc, ms, lo, p, naming.pos - 1, toDouble);
    } else {
      Widen(doc, ms, lo, p, naming.pos, toDouble);
      NamedIsFaithful(doc, naming.pos, depth, naming.name, ms, lo, toDouble);
      var r := ParseNamed(doc, naming.pos, depth, naming.name, ms, toDouble);
      var next := SeparatorAt(doc, r.pos);
      if next.Closing? {
        Widen(doc, r.value, lo, r.pos, next.pos - 1, toDouble);
      } else {
        Widen(doc, r.value, lo, r.pos, next.pos, toDouble);
        MembersAreFaithful(doc, next.pos, depth, naming.name, r.value, lo, toDouble);
      }
    }
  }

  lemma {:induction false} NamedIsFaithful(doc: bytes, p: nat, depth: nat, name: bytes, ms: Members, lo: nat, toDouble: ToDouble)
    requires lo <= p <= |doc| && ParseNamed(doc, p, depth, name, ms, toDouble).Ok?
    requires MembersFaithful(doc, ms, lo, p, toDouble)
    ensures var r := ParseNamed(doc, p, depth, name, ms, toDouble);
            MembersFaithful(doc, r.value, lo, r.pos, toDouble)
    decreases |doc| - p, 1
  {
    hide ParseValue, Lex, Put, Fetch, Faithful, MembersFaithful;
    var k := NameKey(name);
    var colon := Lex(doc, p);
    ParsedIsFaithful(doc, colon.end, depth, Fetch(ms, k), toDouble);
    Widen(doc, ms, lo, p, colon.end, toDouble);
    var r := ParseValue(doc, colon.end, depth, Fetch(ms, k), toDouble);
    PutFaithful(doc, ms, lo, colon.end, r.pos, k, r.value, toDouble);
  }

  /**
    After a successful parse every surviving value, at any depth, lies inside its container,
    beside its siblings, and its part of the document parses by itself to an equal value.
  */
  lemma OffsetsAreMeaningful(doc: bytes, root: Value, toDouble: ToDouble)
    requires Parse(doc, root, toDouble).Ok?
    ensures Faithful(doc, Parse(doc, root, toDouble).value, toDouble)
  {
    ParsedIsFaithful(doc, 0, 0, root, toDouble);
  }
}
