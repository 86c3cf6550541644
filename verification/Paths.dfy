/**
  Json::Path: resolve with a default, and make, from the list of path arguments. An argument is
  given as the map key that operator[] makes of it.
*/
module Paths {
  import opened Bytes
  import opened Values
  import opened Places
  import Arrays

  /** The largest ArrayIndex. An array that has this key reports size zero. */
  const MAX_INDEX: nat := 0xFFFF_FFFF

  predicate ValidArgs(args: Place) {
    forall i :: 0 <= i < |args| ==> args[i].Index? ==> args[i].index <= MAX_INDEX
  }

  /** The types on which operator[] with this argument does not throw. */
  predicate Accepts(j: Json, k: Key) {
    j.Null? || (if k.Index? then j.Array? else j.Object?)
  }

  /** operator[]: null becomes a container, and a missing member becomes null. */
  function MakeMember(v: Value, k: Key): (w: Value)
    requires Accepts(v.json, k)
    ensures IsContainer(w.json) && Accepts(w.json, k) && Find(w.json.ms, k).Some?
  {
    if v.json.Null? then
      Value(if k.Index? then Array(Cons(k, NULL_VALUE, Nil)) else Object(Cons(k, NULL_VALUE, Nil)), 0, 0)
    else WithMember(v, k)
  }

  /** The root that make leaves, or None if an operator[] throws. */
  function Made(v: Value, args: Place): Option<Value>
    decreases args
  {
    if args == [] then Some(v)
    else if !Accepts(v.json, args[0]) then None
    else
      var w := MakeMember(v, args[0]);
      match Made(Find(w.json.ms, args[0]).value, args[1..])
      case None => None
      case Some(c) => Some(SetMember(w, args[0], c))
  }

  /** resolve with a default value. */
  function Resolved(v: Value, args: Place, default: Value): Value
    decreases args
  {
    if args == [] then v
    else if args[0].Index? then
      if v.json.Array? && args[0].index < ArraySize(v.json.ms)
      then Resolved(Fetch(v.json.ms, args[0]), args[1..], default)
      else default
    else if v.json.Object? && Find(v.json.ms, args[0]).Some?
    then Resolved(Fetch(v.json.ms, args[0]), args[1..], default)
    else default
  }

  method Resolve(root: Value, args: Place, default: Value) returns (r: Value)
    ensures r == Resolved(root, args, default)
  {
    var node := root;
    var it := 0;
    while it < |args|
      invariant 0 <= it <= |args|
      invariant Resolved(root, args, default) == Resolved(node, args[it..], default)
    {
      var arg := args[it];
      assert args[it..][0] == arg && args[it..][1..] == args[it + 1..];
      if arg.Index? {
        if !node.json.Array? || !(arg.index < ArraySize(node.json.ms)) { return default; }
        node := Fetch(node.json.ms, arg);
      } else {
        if !node.json.Object? { return default; }
        var found := Find(node.json.ms, arg);
        if found.None? { return default; }
        node := found.value;
      }
      it := it + 1;
    }
    return node;
  }

  /** A root that make changes in place. */
  class Document {
    var root: Value

    constructor (v: Value)
      ensures root == v
    {
      root := v;
    }

    /** make: returns the place of the node, or false where the code throws, and then nothing has changed. */
    method Make(args: Place) returns (ok: bool, node: Place)
      modifies this
      ensures ok == Made(old(root), args).Some?
      ensures ok ==> root == Made(old(root), args).value && node == args && Reaches(root, node)
      ensures !ok ==> root == old(root)
    {
      node := [];
      var it := 0;
      while it < |args|
        invariant 0 <= it <= |args| && node == args[..it] && Reaches(root, node)
        invariant root == old(root) || Get(root, node).json.Null?
        invariant Made(old(root), args) ==
                  match Made(Get(root, node), args[it..])
                  case None => None
                  case Some(c) => Some(Set(root, node, c))
      {
        var arg := args[it];
        ghost var at := Get(root, node);
        assert args[it..][0] == arg && args[it..][1..] == args[it + 1..];
        if !Accepts(Get(root, node).json, arg) { return false, node; }
        ghost var before := root;
        var made := MakeMember(Get(root, node), arg);
        root := Set(root, node, made);
        StepDown(before, node, made, arg);
        if made == at { SetGet(before, node); }
        node := node + [arg];
        it := it + 1;
        if Made(Get(root, node), args[it..]).Some? {
          SetBelow(before, args[..it - 1], made, arg, Made(Get(root, node), args[it..]).value);
        }
      }
      assert args[..it] == args && args[it..] == [];
      SetGet(root, node);
      return true, node;
    }

    /** Assignment through the reference that make returned. */
    method Assign(node: Place, v: Value)
      requires Reaches(root, node)
      modifies this
      ensures root == Set(old(root), node, v)
    {
      root := Set(root, node, v);
    }
  }

  lemma StepDown(root: Value, p: Place, w: Value, k: Key)
    requires Reaches(root, p) && IsContainer(w.json) && Find(w.json.ms, k).Some?
    ensures Reaches(Set(root, p, w), p + [k]) && Get(Set(root, p, w), p + [k]) == Find(w.json.ms, k).value
  {
    GetSet(root, p, w);
    ReachesMember(Set(root, p, w), p, k);
  }

  lemma SetBelow(root: Value, p: Place, w: Value, k: Key, c: Value)
    requires Reaches(root, p) && IsContainer(w.json) && Find(w.json.ms, k).Some?
    ensures Reaches(Set(root, p, w), p + [k])
    ensures Set(Set(root, p, w), p + [k], c) == Set(root, p, SetMember(w, k, c))
  {
    StepDown(root, p, w, k);
    GetSet(root, p, w);
    SetAtMember(Set(root, p, w), p, k, c);
    SetSet(root, p, w, SetMember(w, k, c));
  }

  // ----- Laws -----

  /** make succeeds unless the path runs into a value of another type. */
  lemma {:induction false} MakeFailsExactly(v: Value, args: Place)
    ensures Made(v, args).None? <==>
            exists n :: 0 <= n < |args| && Reaches(v, args[..n]) && !Accepts(Get(v, args[..n]).json, args[n])
    decreases args
  {
    if args != [] {
      if !Accepts(v.json, args[0]) {
        assert args[..0] == [] && Reaches(v, args[..0]) && Get(v, args[..0]) == v;
      } else {
        var c := Find(MakeMember(v, args[0]).json.ms, args[0]).value;
        MakeFailsExactly(c, args[1..]);
        var present := IsContainer(v.json) && Find(v.json.ms, args[0]).Some?;
        if Made(v, args).None? {
          var n :| 0 <= n < |args[1..]| && Reaches(c, args[1..][..n]) && !Accepts(Get(c, args[1..][..n]).json, args[1..][n]);
          assert args[..n + 1][1..] == args[1..][..n];
          assert present;
          assert Reaches(v, args[..n + 1]);
        } else {
          forall n | 0 <= n < |args| && Reaches(v, args[..n])
            ensures Accepts(Get(v, args[..n]).json, args[n])
          {
            if n > 0 {
              assert args[..n][1..] == args[1..][..n - 1];
              assert args[1..][n - 1] == args[n];
            }
          }
        }
      }
    }
  }

  /** A second make changes nothing, whatever has been assigned in between. */
  lemma {:induction false} MakeIsIdempotent(v: Value, args: Place, w: Value)
    requires Made(v, args).Some?
    ensures Reaches(Made(v, args).value, args)
    ensures Made(Made(v, args).value, args) == Made(v, args)
    ensures Made(Set(Made(v, args).value, args, w), args) == Some(Set(Made(v, args).value, args, w))
    decreases args
  {
    if args != [] {
      var k := args[0];
      var made := MakeMember(v, k);
      var c := Find(made.json.ms, k).value;
      var c' := Made(c, args[1..]).value;
      MakeIsIdempotent(c, args[1..], w);
      FindPut(made.json.ms, k, c', k);
      FindPut(Put(made.json.ms, k, c'), k, Set(c', args[1..], w), k);
      PutSame(Put(made.json.ms, k, c'), k);
      PutSame(Put(Put(made.json.ms, k, c'), k, Set(c', args[1..], w)), k);
    }
  }

  /** The root after make and assignment: the assigned value was put under the first argument. */
  lemma RootAfterAssign(v: Value, args: Place, w: Value)
    requires args != [] && Made(v, args).Some?
    ensures var made := MakeMember(v, args[0]);
            var c := Find(made.json.ms, args[0]).value;
            Made(c, args[1..]).Some? && Reaches(Made(c, args[1..]).value, args[1..]) &&
            Reaches(Made(v, args).value, args) &&
            Set(Made(v, args).value, args, w) == SetMember(made, args[0], Set(Made(c, args[1..]).value, args[1..], w))
  {
    MakeIsIdempotent(v, args, w);
    var k := args[0];
    var made := MakeMember(v, k);
    var c := Find(made.json.ms, k).value;
    MakeIsIdempotent(c, args[1..], w);
    var c' := Made(c, args[1..]).value;
    FindPut(made.json.ms, k, c', k);
    PutPut(made.json.ms, k, c', Set(c', args[1..], w));
  }

  /** Every index on the way to a place that is reached is below the size of its array. */
  predicate InSize(v: Value, args: Place)
    requires Reaches(v, args)
  {
    args == [] ||
    ((args[0].Index? ==> v.json.Array? && args[0].index < ArraySize(v.json.ms)) &&
     InSize(Find(v.json.ms, args[0]).value, args[1..]))
  }

  /** A missing element below the size of an array that is reached. */
  predicate Hole(v: Value, args: Place) {
    args != [] &&
    var (way, last) := (args[..|args| - 1], args[|args| - 1]);
    Reaches(v, way) && InSize(v, way) && last.Index? &&
    var j := Get(v, way).json;
    j.Array? && last.index < ArraySize(j.ms) && Find(j.ms, last).None?
  }

  /** resolve returns what is at the place, null for a hole at its end, and the default otherwise. */
  lemma {:induction false} ResolvedExactly(v: Value, args: Place, default: Value)
    requires WellFormed(v.json)
    ensures Resolved(v, args, default) ==
            if Reaches(v, args) && InSize(v, args) then Get(v, args)
            else if Hole(v, args) then NULL_VALUE
            else default
    decreases args
  {
    if args != [] {
      var k := args[0];
      if IsContainer(v.json) {
        KindOfKey(v.json, k);
        FetchWellFormed(v.json.ms, k);
        ResolvedExactly(Fetch(v.json.ms, k), args[1..], default);
        if |args| > 1 {
          var way := args[..|args| - 1];
          assert way[0] == k && way[1..] == args[1..][..|args| - 2];
          assert args[|args| - 1] == args[1..][|args| - 2];
        } else {
          assert args[..0] == [] && args[1..] == [];
        }
      } else if |args| > 1 {
        assert args[..|args| - 1][0] == k;
      } else {
        assert args[..0] == [];
      }
    }
  }

  /** A container holds keys of its own kind only. */
  lemma KindOfKey(j: Json, k: Key)
    requires WellFormed(j) && IsContainer(j)
    ensures Find(j.ms, k).Some? ==> (k.Index? <==> j.Array?)
  {
    if j.Array? && k.Name? { Arrays.NoNames(j.ms, k); }
    if j.Object? && k.Index? { NoIndices(j.ms, k); }
  }

  lemma NoIndices(ms: Members, k: Key)
    requires NameKeys(ms) && k.Index?
    ensures Find(ms, k) == None
  {}

  /**
    No index on the path, and no array that the path goes through, has the largest index: there
    the size of the array would wrap to zero.
  */
  predicate Addressable(v: Value, args: Place)
    decreases args
  {
    if args == [] then true
    else
      (args[0].Index? ==> args[0].index < MAX_INDEX && (v.json.Array? ==> Find(v.json.ms, Index(MAX_INDEX)).None?)) &&
      Addressable(if IsContainer(v.json) then Fetch(v.json.ms, args[0]) else NULL_VALUE, args[1..])
  }

  /** The value assigned through make resolves, for a default of any kind, exactly on addressable paths. */
  lemma {:induction false} ResolveAfterMake(v: Value, args: Place, w: Value, default: Value)
    requires WellFormed(v.json) && ValidArgs(args) && Made(v, args).Some?
    ensures Reaches(Made(v, args).value, args)
    ensures Resolved(Set(Made(v, args).value, args, w), args, default) ==
            if Addressable(v, args) then w else default
    decreases args
  {
    MakeIsIdempotent(v, args, w);
    if args != [] {
      RootAfterAssign(v, args, w);
      var k := args[0];
      var made := MakeMember(v, k);
      var c := Find(made.json.ms, k).value;
      if IsContainer(v.json) { FetchWellFormed(v.json.ms, k); }
      ResolveAfterMake(c, args[1..], w, default);
      var end := Set(Made(c, args[1..]).value, args[1..], w);
      FindPut(made.json.ms, k, end, k);
      if k.Index? { SizeAfterMake(v, k, end); }
    }
  }

  /** After make, an index is below the size of its array unless the largest index is in it. */
  lemma SizeAfterMake(v: Value, k: Key, c: Value)
    requires WellFormed(v.json) && Accepts(v.json, k) && k.Index? && k.index <= MAX_INDEX
    ensures k.index < ArraySize(Put(MakeMember(v, k).json.ms, k, c)) <==>
            k.index < MAX_INDEX && (v.json.Array? ==> Find(v.json.ms, Index(MAX_INDEX)).None?)
  {
    var ms := Put(MakeMember(v, k).json.ms, k, c);
    var before := if v.json.Array? then v.json.ms else Nil;
    SortedPut(before, k, c);
    Arrays.IndexKeysKept(before, k, c);
    if Find(before, k).None? { PutPut(before, k, NULL_VALUE, c); }
    assert ms == Put(before, k, c);
    FindPut(before, k, c, k);
    FindPut(before, k, c, Index(MAX_INDEX));
    Arrays.LastIsGreatest(ms, k.index);
    Arrays.LastIsGreatest(ms, MAX_INDEX);
  }

  /** So resolve returns the assigned value for every default if and only if the path is addressable. */
  lemma ResolveReturnsAssigned(v: Value, args: Place, w: Value)
    requires WellFormed(v.json) && ValidArgs(args) && Made(v, args).Some?
    ensures Reaches(Made(v, args).value, args)
    ensures (forall d :: Resolved(Set(Made(v, args).value, args, w), args, d) == w) <==> Addressable(v, args)
  {
    var other := Value(w.json, w.start + 1, w.limit);
    ResolveAfterMake(v, args, w, other);
    forall d
      ensures Resolved(Set(Made(v, args).value, args, w), args, d) == if Addressable(v, args) then w else d
    {
      ResolveAfterMake(v, args, w, d);
    }
  }

  /** The three calls on one object: make a path, assign through the node, resolve the path. */
  method MakeAssignResolve(d: Document, args: Place, v: Value, default: Value) returns (ok: bool, r: Value)
    requires WellFormed(d.root.json) && ValidArgs(args)
    modifies d
    ensures ok == Made(old(d.root), args).Some?
    ensures !ok ==> d.root == old(d.root)
    ensures ok ==> Made(d.root, args) == Some(d.root) && r == if Addressable(old(d.root), args) then v else default
  {
    ghost var before := d.root;
    var node;
    ok, node := d.Make(args);
    r := default;
    if ok {
      d.Assign(node, v);
      r := Resolve(d.root, args, default);
      MakeIsIdempotent(before, args, v);
      ResolveAfterMake(before, args, v, default);
    }
  }

  /** The largest index is such a path: make creates the element, and resolve does not find it. */
  lemma LargestIndexIsLost(w: Value, default: Value)
    ensures var args := [Index(MAX_INDEX)];
            Made(NULL_VALUE, args).Some? && Reaches(Made(NULL_VALUE, args).value, args) &&
            Resolved(Set(Made(NULL_VALUE, args).value, args, w), args, default) == default
  {
    var args := [Index(MAX_INDEX)];
    assert args[1..] == [];
    ResolveAfterMake(NULL_VALUE, args, w, default);
  }

  predicate IsPrefix(p: Place, q: Place) { p <= q }

  /** Values that were present beside the path, neither above nor below its end, are unchanged. */
  lemma {:induction false} MakeKeepsTheRest(v: Value, args: Place, w: Value, p: Place)
    requires Made(v, args).Some? && Reaches(v, p)
    requires !IsPrefix(p, args) && !IsPrefix(args, p)
    ensures Reaches(Made(v, args).value, args)
    ensures Reaches(Set(Made(v, args).value, args, w), p)
    ensures Get(Set(Made(v, args).value, args, w), p) == Get(v, p)
    decreases args
  {
    RootAfterAssign(v, args, w);
    var k := args[0];
    var made := MakeMember(v, k);
    var c := Find(made.json.ms, k).value;
    FindPut(made.json.ms, k, Set(Made(c, args[1..]).value, args[1..], w), p[0]);
    FindPut(v.json.ms, k, NULL_VALUE, p[0]);
    if p[0] == k {
      assert args == [k] + args[1..] && p == [k] + p[1..];
      MakeKeepsTheRest(c, args[1..], w, p[1..]);
    }
  }
}
