/**
  A pointer into a Value tree is modelled by the keys that lead from the root to it: std::map
  nodes do not move, so a Value* stays attached to its place while other members are added.
  Reading and writing through such a pointer obey the laws of a lens.
*/
module Places {
  import opened Values

  type Place = seq<Key>

  predicate IsContainer(j: Json) { j.Array? || j.Object? }

  function WithMembers(j: Json, ms: Members): Json
    requires IsContainer(j)
  {
    if j.Array? then Array(ms) else Object(ms)
  }

  /** The place exists: each step names a present member of a container. */
  predicate Reaches(v: Value, p: Place) {
    p == [] ||
    (IsContainer(v.json) && Find(v.json.ms, p[0]).Some? && Reaches(Find(v.json.ms, p[0]).value, p[1..]))
  }

  function Get(v: Value, p: Place): Value
    requires Reaches(v, p)
  {
    if p == [] then v else Get(Find(v.json.ms, p[0]).value, p[1..])
  }

  /** Overwrite one present or absent member of a container. */
  function SetMember(v: Value, k: Key, w: Value): Value
    requires IsContainer(v.json)
  {
    v.(json := WithMembers(v.json, Put(v.json.ms, k, w)))
  }

  function Set(v: Value, p: Place, w: Value): Value
    requires Reaches(v, p)
  {
    if p == [] then w
    else SetMember(v, p[0], Set(Find(v.json.ms, p[0]).value, p[1..], w))
  }

  lemma {:induction false} GetSet(v: Value, p: Place, w: Value)
    requires Reaches(v, p)
    ensures Reaches(Set(v, p, w), p) && Get(Set(v, p, w), p) == w
  {
    if p != [] {
      var child := Find(v.json.ms, p[0]).value;
      GetSet(child, p[1..], w);
      FindPut(v.json.ms, p[0], Set(child, p[1..], w), p[0]);
    }
  }

  lemma {:induction false} SetSet(v: Value, p: Place, w: Value, x: Value)
    requires Reaches(v, p)
    ensures Reaches(Set(v, p, w), p) && Set(Set(v, p, w), p, x) == Set(v, p, x)
  {
    GetSet(v, p, w);
    if p != [] {
      var child := Find(v.json.ms, p[0]).value;
      SetSet(child, p[1..], w, x);
      FindPut(v.json.ms, p[0], Set(child, p[1..], w), p[0]);
      PutPut(v.json.ms, p[0], Set(child, p[1..], w), Set(child, p[1..], x));
    }
  }

  lemma {:induction false} SetGet(v: Value, p: Place)
    requires Reaches(v, p)
    ensures Set(v, p, Get(v, p)) == v
  {
    if p != [] {
      SetGet(Find(v.json.ms, p[0]).value, p[1..]);
      PutSame(v.json.ms, p[0]);
    }
  }

  /** Pushing a member pointer on the stack: the place of a member of the value at p. */
  lemma {:induction false} ReachesMember(v: Value, p: Place, k: Key)
    requires Reaches(v, p) && IsContainer(Get(v, p).json)
    requires Find(Get(v, p).json.ms, k).Some?
    ensures Reaches(v, p + [k]) && Get(v, p + [k]) == Find(Get(v, p).json.ms, k).value
  {
    if p == [] {
      assert ([k])[1..] == [];
    } else {
      assert (p + [k])[1..] == p[1..] + [k];
      ReachesMember(Find(v.json.ms, p[0]).value, p[1..], k);
    }
  }

  lemma {:induction false} SetAtMember(v: Value, p: Place, k: Key, w: Value)
    requires Reaches(v, p) && IsContainer(Get(v, p).json)
    requires Find(Get(v, p).json.ms, k).Some?
    ensures Reaches(v, p + [k])
    ensures Set(v, p + [k], w) == Set(v, p, SetMember(Get(v, p), k, w))
  {
    ReachesMember(v, p, k);
    if p == [] {
      assert ([k])[1..] == [];
    } else {
      assert (p + [k])[1..] == p[1..] + [k];
      SetAtMember(Find(v.json.ms, p[0]).value, p[1..], k, w);
    }
  }

  /** r' is r with v at p, and nothing else changed. */
  ghost predicate Wrote(r: Value, r': Value, p: Place, v: Value) {
    Reaches(r, p) && r' == Set(r, p, v)
  }

  lemma WroteNothing(r: Value, p: Place)
    requires Reaches(r, p)
    ensures Wrote(r, r, p, Get(r, p))
  {
    SetGet(r, p);
  }

  lemma WroteReads(r: Value, r': Value, p: Place, v: Value)
    requires Wrote(r, r', p, v)
    ensures Reaches(r', p) && Get(r', p) == v
  {
    GetSet(r, p, v);
  }

  lemma WroteTwice(r: Value, r': Value, r'': Value, p: Place, v: Value, w: Value)
    requires Wrote(r, r', p, v) && Wrote(r', r'', p, w)
    ensures Wrote(r, r'', p, w)
  {
    SetSet(r, p, v, w);
  }

  /** operator[]: the container with a member k, null if it is new. */
  function WithMember(v: Value, k: Key): (w: Value)
    requires IsContainer(v.json)
    ensures IsContainer(w.json) && Find(w.json.ms, k).Some?
    ensures Find(w.json.ms, k).value == Fetch(v.json.ms, k)
  {
    FindPut(v.json.ms, k, NULL_VALUE, k);
    if Find(v.json.ms, k).Some? then v else SetMember(v, k, NULL_VALUE)
  }

  /** Creating a member gives a pointer to it. */
  lemma MemberCreated(r: Value, r': Value, p: Place, v: Value, k: Key)
    requires IsContainer(v.json) && Wrote(r, r', p, WithMember(v, k))
    ensures Reaches(r', p + [k]) && Get(r', p + [k]) == Fetch(v.json.ms, k)
  {
    WroteReads(r, r', p, WithMember(v, k));
    ReachesMember(r', p, k);
  }

  /** Creating a member and then writing through the pointer to it is writing the member. */
  lemma MemberWritten(r: Value, r': Value, r'': Value, p: Place, v: Value, k: Key, w: Value)
    requires IsContainer(v.json) && Wrote(r, r', p, WithMember(v, k))
    requires Wrote(r', r'', p + [k], w)
    ensures Wrote(r, r'', p, SetMember(v, k, w))
  {
    var v' := WithMember(v, k);
    WroteReads(r, r', p, v');
    SetAtMember(r', p, k, w);
    PutPut(v.json.ms, k, NULL_VALUE, w);
    WroteTwice(r, r', r'', p, v', SetMember(v', k, w));
  }
}
