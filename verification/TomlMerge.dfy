/** Merging an override into a TOML table (doc/src/helpers.rs). Leaves are scalars with reflexive
    equality, so a floating-point NaN is not among them. */
module TomlMerge {
  import opened Bytes

  type Key = string

  datatype Value = Leaf(scalar: int) | List(elements: seq<Value>) | Table(entries: map<Key, Value>)

  // ----- what merging computes -----

  /** Appends the elements that are not there yet, one after the other. */
  function Union(a: seq<Value>, b: seq<Value>): (u: seq<Value>)
    decreases |b|
  {
    if b == [] then a
    else Union(if b[0] in a then a else a + [b[0]], b[1..])
  }

  /** The value left at a key that holds x when the override holds y. A table takes only a table,
      a list only a list, and anything else is replaced. */
  function Merge(x: Value, y: Value): (v: Value)
    ensures x.Table? && y.Table? ==> v.Table? && v.entries.Keys == x.entries.Keys + y.entries.Keys
    decreases x
  {
    match x
    case Table(a) =>
      if y.Table? then
        Table(map k | k in a.Keys + y.entries.Keys ::
                if k !in a then y.entries[k]
                else if k !in y.entries then a[k]
                else Merge(a[k], y.entries[k]))
      else x
    case List(a) => if y.List? then List(Union(a, y.elements)) else x
    case Leaf(_) => y
  }

  // ----- lists -----

  lemma {:induction false} UnionMembers(a: seq<Value>, b: seq<Value>)
    ensures forall v :: v in Union(a, b) <==> v in a || v in b
    ensures a <= Union(a, b)
    decreases |b|
  {
    if b != [] {
      var a' := if b[0] in a then a else a + [b[0]];
      UnionMembers(a', b[1..]);
      assert forall v :: v in b <==> v == b[0] || v in b[1..];
    }
  }

  lemma {:induction false} UnionAbsorbs(a: seq<Value>, b: seq<Value>)
    ensures Union(a, b) == a <==> forall v :: v in b ==> v in a
    decreases |b|
  {
    UnionMembers(a, b);
    if b != [] {
      assert forall v :: v in b <==> v == b[0] || v in b[1..];
      if b[0] in a { UnionAbsorbs(a, b[1..]); }
    }
  }

  lemma {:induction false} UnionConcat(a: seq<Value>, b: seq<Value>, c: seq<Value>)
    ensures Union(a, b + c) == Union(Union(a, b), c)
    decreases |b|
  {
    if b == [] {
      assert b + c == c;
    } else {
      assert (b + c)[1..] == b[1..] + c;
      UnionConcat(if b[0] in a then a else a + [b[0]], b[1..], c);
    }
  }

  /** Elements already present can be dropped from the middle of what is appended. */
  lemma {:induction false} UnionAssociates(a: seq<Value>, b: seq<Value>, c: seq<Value>)
    ensures Union(Union(a, b), c) == Union(a, Union(b, c))
    decreases |c|
  {
    if c != [] {
      if c[0] in b {
        UnionMembers(a, b);
        UnionAssociates(a, b, c[1..]);
      } else {
        UnionAssociates(a, b + [c[0]], c[1..]);
        UnionConcat(a, b, [c[0]]);
        var ab := Union(a, b);
        assert Union(ab, [c[0]]) == if c[0] in ab then ab else ab + [c[0]];
      }
    }
  }

  /** In b, v occurs before any w. */
  predicate ComesBefore(b: seq<Value>, v: Value, w: Value) {
    exists p :: 0 <= p < |b| && b[p] == v && w !in b[..p + 1]
  }

  /** u is a followed by the elements of b that a lacks: each once, in the order of their first
      occurrence. */
  ghost predicate Extends(a: seq<Value>, b: seq<Value>, u: seq<Value>) {
    && a <= u
    && (forall v :: multiset(u)[v] == if v in a then multiset(a)[v] else if v in b then 1 else 0)
    && (forall i, j :: |a| <= i < j < |u| ==> ComesBefore(b, u[i], u[j]))
  }

  lemma UnionHead(a: seq<Value>, b: seq<Value>, u: seq<Value>)
    requires b != [] && Extends(if b[0] in a then a else a + [b[0]], b[1..], u)
    ensures Extends(a, b, u)
  {
    var a' := if b[0] in a then a else a + [b[0]];
    assert forall v :: v in b <==> v == b[0] || v in b[1..];
    forall v ensures multiset(u)[v] == if v in a then multiset(a)[v] else if v in b then 1 else 0 {
      assert v !in a ==> multiset(a)[v] == 0;
    }
    forall i, j | |a| <= i < j < |u| ensures ComesBefore(b, u[i], u[j]) {
      AddedOnce(a, b, u, i, j);
    }
  }

  lemma AddedOnce(a: seq<Value>, b: seq<Value>, u: seq<Value>, i: nat, j: nat)
    requires b != [] && Extends(if b[0] in a then a else a + [b[0]], b[1..], u)
    requires |a| <= i < j < |u|
    ensures ComesBefore(b, u[i], u[j])
  {
    var a' := if b[0] in a then a else a + [b[0]];
    NoneRepeated(a', b[1..], u, j);
    if i < |a'| {
      assert b[0] == u[i] && u[j] !in b[..1];
    } else {
      var p :| 0 <= p < |b[1..]| && b[1..][p] == u[i] && u[j] !in b[1..][..p + 1];
      assert b[..p + 2] == [b[0]] + b[1..][..p + 1];
      assert b[p + 1] == u[i];
    }
  }

  /** What was added was not there before. */
  lemma NoneRepeated(a: seq<Value>, b: seq<Value>, u: seq<Value>, j: nat)
    requires Extends(a, b, u) && |a| <= j < |u|
    ensures u[j] !in a
  {
    assert u == a + u[|a|..] && u[j] in u[|a|..];
    assert multiset(u) == multiset(a) + multiset(u[|a|..]);
    assert multiset(u[|a|..])[u[j]] >= 1;
  }

  lemma {:induction false} UnionExtends(a: seq<Value>, b: seq<Value>)
    ensures Extends(a, b, Union(a, b))
    decreases |b|
  {
    if b != [] {
      UnionExtends(if b[0] in a then a else a + [b[0]], b[1..]);
      UnionHead(a, b, Union(a, b));
    }
  }

  // ----- an override that adds nothing -----

  /** x already holds everything y would contribute. */
  predicate Absorbs(x: Value, y: Value)
    decreases x
  {
    match x
    case Table(a) =>
      y.Table? ==> forall k :: k in y.entries ==> k in a && Absorbs(a[k], y.entries[k])
    case List(a) => y.List? ==> forall v :: v in y.elements ==> v in a
    case Leaf(_) => x == y
  }

  lemma {:induction false} MergeIsNoOpIff(x: Value, y: Value)
    ensures Merge(x, y) == x <==> Absorbs(x, y)
    decreases x
  {
    if x.List? && y.List? {
      UnionAbsorbs(x.elements, y.elements);
    } else if x.Table? && y.Table? {
      var a, b, m := x.entries, y.entries, Merge(x, y).entries;
      forall k | k in a && k in b ensures Merge(a[k], b[k]) == a[k] <==> Absorbs(a[k], b[k]) {
        MergeIsNoOpIff(a[k], b[k]);
      }
      if Absorbs(x, y) {
        assert m.Keys == a.Keys;
        assert m == a;
      } else {
        var k :| k in b && !(k in a && Absorbs(a[k], b[k]));
        assert k in m;
        assert k in a ==> m[k] != a[k];
      }
    }
  }

  lemma {:induction false} AbsorbsItself(x: Value)
    ensures Absorbs(x, x)
    decreases x
  {
    if x.Table? {
      forall k | k in x.entries ensures Absorbs(x.entries[k], x.entries[k]) {
        AbsorbsItself(x.entries[k]);
      }
    }
  }

  lemma {:induction false} MergeAbsorbs(x: Value, y: Value)
    ensures Absorbs(Merge(x, y), y)
    decreases x
  {
    if x.Leaf? {
      AbsorbsItself(y);
    } else if x.List? && y.List? {
      UnionMembers(x.elements, y.elements);
    } else if x.Table? && y.Table? {
      var a, b, m := x.entries, y.entries, Merge(x, y).entries;
      forall k | k in b ensures k in m && Absorbs(m[k], b[k]) {
        if k in a { MergeAbsorbs(a[k], b[k]); } else { AbsorbsItself(b[k]); }
      }
    }
  }

  /** Everything structured in x is still in m: tables keep their keys, lists keep their elements in
      front; only leaves may be replaced. */
  predicate Keeps(x: Value, m: Value)
    decreases x
  {
    match x
    case Table(a) => m.Table? && forall k :: k in a ==> k in m.entries && Keeps(a[k], m.entries[k])
    case List(a) => m.List? && a <= m.elements
    case Leaf(_) => true
  }

  lemma {:induction false} KeepsItself(x: Value)
    ensures Keeps(x, x)
    decreases x
  {
    if x.Table? {
      forall k | k in x.entries ensures Keeps(x.entries[k], x.entries[k]) {
        KeepsItself(x.entries[k]);
      }
    }
  }

  /** Merging loses nothing of the original but leaves that are overridden. */
  lemma {:induction false} MergeKeeps(x: Value, y: Value)
    ensures Keeps(x, Merge(x, y))
    decreases x
  {
    if x.Table? && y.Table? {
      var a, b, m := x.entries, y.entries, Merge(x, y).entries;
      forall k | k in a ensures k in m && Keeps(a[k], m[k]) {
        if k in b { MergeKeeps(a[k], b[k]); } else { KeepsItself(a[k]); }
      }
    } else if x.List? && y.List? {
      UnionMembers(x.elements, y.elements);
    } else {
      KeepsItself(x);
    }
  }

  /** Applying the same override a second time changes nothing. */
  lemma MergeIsIdempotent(x: Value, y: Value)
    ensures Merge(Merge(x, y), y) == Merge(x, y)
  {
    MergeAbsorbs(x, y);
    MergeIsNoOpIff(Merge(x, y), y);
  }

  // ----- what a merged table holds along any path of keys -----

  function At(v: Value, path: seq<Key>): (r: Option<Value>)
    decreases |path|
  {
    if path == [] then Some(v)
    else if v.Table? && path[0] in v.entries then At(v.entries[path[0]], path[1..])
    else None
  }

  /** Some table path leads to a list before the end, where an override cannot go on. */
  predicate Blocked(x: Value, path: seq<Key>) {
    exists n :: 0 <= n < |path| && At(x, path[..n]).Some? && At(x, path[..n]).value.List?
  }

  /** What merging leaves where both operands hold something: a table takes over the keys of a table,
      a list is extended by a list, neither takes anything else, and the rest is replaced. */
  ghost predicate Combines(x: Value, y: Value, m: Value) {
    if x.Table? && y.Table? then m.Table? && m.entries.Keys == x.entries.Keys + y.entries.Keys
    else if x.List? && y.List? then m.List? && Extends(x.elements, y.elements, m.elements)
    else if x.Table? || x.List? then m == x
    else m == y
  }

  lemma BlockedStep(x: Value, path: seq<Key>)
    requires path != []
    ensures Blocked(x, path) <==>
            x.List? || (x.Table? && path[0] in x.entries && Blocked(x.entries[path[0]], path[1..]))
  {
    if x.List? {
      assert At(x, path[..0]) == Some(x);
    } else if x.Table? && path[0] in x.entries {
      assert forall n :: 0 < n <= |path| ==> path[..n][0] == path[0] && path[..n][1..] == path[1..][..n - 1];
      if Blocked(x.entries[path[0]], path[1..]) {
        var n :| 0 <= n < |path[1..]| && At(x.entries[path[0]], path[1..][..n]).Some? &&
          At(x.entries[path[0]], path[1..][..n]).value.List?;
        assert At(x, path[..n + 1]) == At(x.entries[path[0]], path[1..][..n]);
      }
      if Blocked(x, path) {
        var n :| 0 <= n < |path| && At(x, path[..n]).Some? && At(x, path[..n]).value.List?;
        assert n > 0 && At(x, path[..n]) == At(x.entries[path[0]], path[1..][..n - 1]);
      }
    }
  }

  /** Merging, key path by key path: where both hold something it is combined, where one does that
      is kept, except that an override is discarded below a list. */
  lemma {:induction false} MergeAtPath(x: Value, y: Value, path: seq<Key>)
    ensures var ax, ay, am := At(x, path), At(y, path), At(Merge(x, y), path);
            && (ax.Some? && ay.Some? ==> am.Some? && Combines(ax.value, ay.value, am.value))
            && (ax.Some? && ay.None? ==> am == ax)
            && (ax.None? ==> am == if Blocked(x, path) then None else ay)
    decreases |path|
  {
    if path == [] {
      if x.List? && y.List? { UnionExtends(x.elements, y.elements); }
    } else {
      BlockedStep(x, path);
      if x.Table? && y.Table? && path[0] in x.entries && path[0] in y.entries {
        MergeAtPath(x.entries[path[0]], y.entries[path[0]], path[1..]);
      }
    }
  }

  // ----- associativity -----

  /** Nowhere along shared keys does a list stand between two tables, or a table between two lists,
      unless the outer override adds nothing to the original. */
  predicate Associates(x: Value, y: Value, z: Value)
    decreases x
  {
    if x.Table? && z.Table? then
      if y.Table? then
        forall k :: k in x.entries && k in y.entries && k in z.entries ==>
          Associates(x.entries[k], y.entries[k], z.entries[k])
      else y.List? ==> Absorbs(x, z)
    else if x.List? && z.List? && y.Table? then Absorbs(x, z)
    else true
  }

  lemma {:induction false} TablesAssociate(a: map<Key, Value>, b: map<Key, Value>, c: map<Key, Value>)
    ensures (Merge(Merge(Table(a), Table(b)), Table(c)) == Merge(Table(a), Merge(Table(b), Table(c)))) <==>
            forall k :: k in a && k in b && k in c ==>
              Merge(Merge(a[k], b[k]), c[k]) == Merge(a[k], Merge(b[k], c[k]))
  {
    var left := Merge(Merge(Table(a), Table(b)), Table(c)).entries;
    var right := Merge(Table(a), Merge(Table(b), Table(c))).entries;
    assert left.Keys == right.Keys;
    assert forall k :: k in left && !(k in a && k in b && k in c) ==> left[k] == right[k];
    assert forall k :: k in a && k in b && k in c ==>
        k in left && left[k] == Merge(Merge(a[k], b[k]), c[k]) && right[k] == Merge(a[k], Merge(b[k], c[k]));
    if forall k :: k in a && k in b && k in c ==> Merge(Merge(a[k], b[k]), c[k]) == Merge(a[k], Merge(b[k], c[k])) {
      assert left == right;
    }
  }

  /** Two overrides can be merged with each other first exactly when `Associates` holds. */
  lemma {:induction false} MergeAssociatesIff(x: Value, y: Value, z: Value)
    ensures Merge(Merge(x, y), z) == Merge(x, Merge(y, z)) <==> Associates(x, y, z)
    decreases x
  {
    if x.Table? && y.Table? && z.Table? {
      var a, b, c := x.entries, y.entries, z.entries;
      forall k | k in a && k in b && k in c
        ensures Merge(Merge(a[k], b[k]), c[k]) == Merge(a[k], Merge(b[k], c[k])) <==> Associates(a[k], b[k], c[k])
      {
        MergeAssociatesIff(a[k], b[k], c[k]);
      }
      TablesAssociate(a, b, c);
    } else if x.List? && y.List? && z.List? {
      UnionAssociates(x.elements, y.elements, z.elements);
    } else {
      MergeIsNoOpIff(x, z);
    }
  }

  /** No key path holds a table in one operand and a list in the other. */
  predicate SameShape(x: Value, y: Value)
    decreases x
  {
    && !(x.Table? && y.List?) && !(x.List? && y.Table?)
    && (x.Table? && y.Table? ==>
          forall k :: k in x.entries && k in y.entries ==> SameShape(x.entries[k], y.entries[k]))
  }

  lemma {:induction false} SameShapeAssociates(x: Value, y: Value, z: Value)
    requires SameShape(x, y)
    ensures Associates(x, y, z)
    decreases x
  {
    if x.Table? && y.Table? && z.Table? {
      forall k | k in x.entries && k in y.entries && k in z.entries
        ensures Associates(x.entries[k], y.entries[k], z.entries[k])
      {
        SameShapeAssociates(x.entries[k], y.entries[k], z.entries[k]);
      }
    }
  }

  /** So merging associates whenever the first override agrees with the original on what is a
      table and what is a list. */
  lemma MergeAssociates(x: Value, y: Value, z: Value)
    requires SameShape(x, y)
    ensures Merge(Merge(x, y), z) == Merge(x, Merge(y, z))
  {
    SameShapeAssociates(x, y, z);
    MergeAssociatesIff(x, y, z);
  }

  /** Without that, it may not: here the list is discarded on one side and in the way on the other. */
  lemma MergeNeedNotAssociate()
    ensures var x, y, z := Table(map["k" := Table(map[])]), Table(map["k" := List([])]), Table(map["k" := Table(map["j" := Leaf(1)])]);
            Merge(Merge(x, y), z) != Merge(x, Merge(y, z))
  {
    var x, y, z := Table(map["k" := Table(map[])]), Table(map["k" := List([])]), Table(map["k" := Table(map["j" := Leaf(1)])]);
    assert "j" in z.entries["k"].entries && "j" !in x.entries["k"].entries;
    assert !Absorbs(x.entries["k"], z.entries["k"]);
    assert !Associates(x.entries["k"], y.entries["k"], z.entries["k"]);
    MergeAssociatesIff(x, y, z);
  }

  // ----- the table that is updated in place -----

  class TomlTable {
    var entries: map<Key, Value>

    constructor (entries: map<Key, Value>)
      ensures this.entries == entries
    {
      this.entries := entries;
    }

    /** Takes the override's entries one by one, in any order; only the entry at that key changes. */
    method MergeTomlTable(over: map<Key, Value>)
      modifies this
      ensures Table(entries) == Merge(Table(old(entries)), Table(over))
      decreases Table(over)
    {
      var todo := over.Keys;
      while todo != {}
        invariant todo <= over.Keys
        invariant entries.Keys == old(entries).Keys + (over.Keys - todo)
        invariant forall k :: k in entries && (k in todo || k !in over) ==> entries[k] == old(entries)[k]
        invariant forall k :: k in over && k !in todo ==>
                    entries[k] == if k in old(entries) then Merge(old(entries)[k], over[k]) else over[k]
        decreases todo
      {
        var key :| key in todo;
        todo := todo - {key};
        var value := over[key];
        if key in entries && entries[key].Table? {
          if value.Table? {
            var inner := new TomlTable(entries[key].entries);
            inner.MergeTomlTable(value.entries);
            entries := entries[key := Table(inner.entries)];
          }
        } else if key in entries && entries[key].List? {
          if value.List? {
            var list := Extend(entries[key].elements, value.elements);
            entries := entries[key := List(list)];
          }
        } else {
          entries := entries[key := value];
        }
      }
      assert entries == Merge(Table(old(entries)), Table(over)).entries;
    }
  }

  method Extend(list: seq<Value>, more: seq<Value>) returns (extended: seq<Value>)
    ensures extended == Union(list, more) && Extends(list, more, extended)
  {
    UnionExtends(list, more);
    extended := list;
    for i := 0 to |more|
      invariant Union(extended, more[i..]) == Union(list, more)
    {
      assert more[i..][1..] == more[i + 1..];
      if more[i] !in extended {
        extended := extended + [more[i]];
      }
    }
  }
}
