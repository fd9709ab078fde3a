/** `prefixNode` as the reader builds it: the forest of tests under the
    synthetic root, with an index from `package + "/" + name` to the test.
    A test goes under the node of the name with its last segment removed
    when that node is already there, and at the top level otherwise. */
module Trie {
  import opened Walk

  datatype Option<T> = None | Some(value: T)

  /** The key a test is found by. */
  function Key(x: Test): string
  {
    x.package + "/" + x.name
  }

  /** The name with its last `/`-separated segment removed, if it has more
      than one. */
  function ParentName(name: string): (r: Option<string>)
    ensures r.None? <==> '/' !in name
    ensures r.Some? ==> |r.value| < |name| && name[..|r.value|] == r.value && name[|r.value|] == '/'
    ensures r.Some? ==> '/' !in name[|r.value| + 1..]
  {
    if name == [] then None
    else if name[|name| - 1] == '/' then Some(name[..|name| - 1])
    else
      var r := ParentName(name[..|name| - 1]);
      assert name == name[..|name| - 1] + [name[|name| - 1]];
      if r.Some? then
        assert name[..|r.value|] == name[..|name| - 1][..|r.value|];
        assert name[|r.value| + 1..] == name[..|name| - 1][|r.value| + 1..] + [name[|name| - 1]];
        r
      else r
  }

  /** The key of the node a test belongs under. */
  function ParentKey(x: Test): Option<string>
  {
    match ParentName(x.name)
    case None => None
    case Some(n) => Some(x.package + "/" + n)
  }

  /** The tests of a forest. */
  function ForestTests(f: seq<Tree>): set<Test>
  {
    if f == [] then {} else ForestTests(f[..|f| - 1]) + Tests(f[|f| - 1])
  }

  function TreeKeys(t: Tree): set<string>
  {
    set x | x in Tests(t) :: Key(x)
  }

  function ForestKeys(f: seq<Tree>): set<string>
  {
    set x | x in ForestTests(f) :: Key(x)
  }

  /** No test sits in two nodes of the forest. */
  ghost predicate ForestOwned(f: seq<Tree>)
  {
    f == [] ||
    (ForestOwned(f[..|f| - 1]) && Owned(f[|f| - 1]) && Tests(f[|f| - 1]) !! ForestTests(f[..|f| - 1]))
  }

  /** Every node holds a test, and each child's test is named one segment
      below its parent's. */
  ghost predicate Nested(t: Tree)
  {
    t.Node? &&
    forall i | 0 <= i < |t.children| ::
      t.children[i].Node? && ParentKey(t.children[i].value) == Some(Key(t.value)) && Nested(t.children[i])
  }

  ghost predicate NestedForest(f: seq<Tree>)
  {
    forall i | 0 <= i < |f| :: Nested(f[i])
  }

  lemma {:induction false} TestsUpToForest(t: Tree, i: nat)
    requires t.Node? && i <= |t.children|
    ensures TestsUpTo(t, i) == ForestTests(t.children[..i])
    ensures OwnedUpTo(t, i) == ForestOwned(t.children[..i])
  {
    if i > 0 {
      TestsUpToForest(t, i - 1);
      assert t.children[..i][..i - 1] == t.children[..i - 1];
    }
  }

  /** A node's tests and ownership in terms of its children as a forest. */
  lemma NodeForest(t: Tree)
    requires t.Node?
    ensures Tests(t) == {t.value} + ForestTests(t.children)
    ensures Owned(t) == (t.value !in ForestTests(t.children) && ForestOwned(t.children))
  {
    TestsUpToForest(t, |t.children|);
    assert t.children[..|t.children|] == t.children;
  }

  lemma {:induction false} ForestTestsAt(f: seq<Tree>, i: nat)
    requires i < |f|
    ensures Tests(f[i]) <= ForestTests(f)
  {
    if i < |f| - 1 {
      ForestTestsAt(f[..|f| - 1], i);
    }
  }

  /** The forest with `obj` added as the last child of the node keyed
      `parent`. */
  function PlaceForest(f: seq<Tree>, obj: Test, parent: string): (r: seq<Tree>)
    decreases f
  {
    if f == [] then []
    else if parent in TreeKeys(f[|f| - 1]) then f[..|f| - 1] + [PlaceIn(f[|f| - 1], obj, parent)]
    else PlaceForest(f[..|f| - 1], obj, parent) + [f[|f| - 1]]
  }

  function PlaceIn(t: Tree, obj: Test, parent: string): (r: Tree)
    decreases t
  {
    match t
    case Nil => Nil
    case Node(v, cs) =>
      if Key(v) == parent then Node(v, cs + [Node(obj, [])]) else Node(v, PlaceForest(cs, obj, parent))
  }

  /** Placing keeps the roots where they are and adds `obj` exactly when the
      parent is there. */
  lemma {:induction false} PlaceForestTests(f: seq<Tree>, obj: Test, parent: string)
    ensures ForestTests(PlaceForest(f, obj, parent)) == ForestTests(f) + (if parent in ForestKeys(f) then {obj} else {})
    decreases f
  {
    if f != [] {
      var init, last := f[..|f| - 1], f[|f| - 1];
      var r := PlaceForest(f, obj, parent);
      assert ForestKeys(f) == ForestKeys(init) + TreeKeys(last);
      if parent in TreeKeys(last) {
        PlaceInTests(last, obj, parent);
        assert r[..|r| - 1] == init;
      } else {
        PlaceForestTests(init, obj, parent);
        assert r[..|r| - 1] == PlaceForest(init, obj, parent);
      }
    }
  }

  lemma {:induction false} PlaceForestRoots(f: seq<Tree>, obj: Test, parent: string)
    ensures |PlaceForest(f, obj, parent)| == |f|
    ensures forall i | 0 <= i < |f| :: PlaceForest(f, obj, parent)[i].Node? == f[i].Node?
    ensures forall i | 0 <= i < |f| && f[i].Node? :: PlaceForest(f, obj, parent)[i].value == f[i].value
    decreases f
  {
    if f != [] {
      var init, last := f[..|f| - 1], f[|f| - 1];
      if parent !in TreeKeys(last) {
        PlaceForestRoots(init, obj, parent);
      }
    }
  }

  lemma {:induction false} PlaceInTests(t: Tree, obj: Test, parent: string)
    ensures Tests(PlaceIn(t, obj, parent)) == Tests(t) + (if parent in TreeKeys(t) then {obj} else {})
    decreases t
  {
    if t.Node? {
      var r := PlaceIn(t, obj, parent);
      NodeForest(t);
      NodeForest(r);
      assert TreeKeys(t) == {Key(t.value)} + ForestKeys(t.children);
      if Key(t.value) == parent {
        var leaf := Node(obj, []);
        NodeForest(leaf);
        assert (t.children + [leaf])[..|t.children|] == t.children;
      } else {
        PlaceForestTests(t.children, obj, parent);
      }
    }
  }

  /** Placing a test the forest does not hold keeps every test in one node. */
  lemma {:induction false} PlaceForestOwned(f: seq<Tree>, obj: Test, parent: string)
    requires ForestOwned(f) && obj !in ForestTests(f)
    ensures ForestOwned(PlaceForest(f, obj, parent))
    decreases f
  {
    if f != [] {
      var init, last := f[..|f| - 1], f[|f| - 1];
      var r := PlaceForest(f, obj, parent);
      if parent in TreeKeys(last) {
        PlaceInOwned(last, obj, parent);
        PlaceInTests(last, obj, parent);
        assert r[..|r| - 1] == init;
      } else {
        PlaceForestOwned(init, obj, parent);
        PlaceForestTests(init, obj, parent);
        assert r[..|r| - 1] == PlaceForest(init, obj, parent);
      }
    }
  }

  lemma {:induction false} PlaceInOwned(t: Tree, obj: Test, parent: string)
    requires Owned(t) && obj !in Tests(t)
    ensures Owned(PlaceIn(t, obj, parent))
    decreases t
  {
    if t.Node? {
      var r := PlaceIn(t, obj, parent);
      NodeForest(t);
      NodeForest(r);
      if Key(t.value) == parent {
        var leaf := Node(obj, []);
        NodeForest(leaf);
        assert (t.children + [leaf])[..|t.children|] == t.children;
      } else {
        PlaceForestOwned(t.children, obj, parent);
        PlaceForestTests(t.children, obj, parent);
      }
    }
  }

  /** Placing a test under the node of its parent name keeps every child one
      segment below its parent. */
  lemma {:induction false} PlaceForestNested(f: seq<Tree>, obj: Test, parent: string)
    requires NestedForest(f) && ParentKey(obj) == Some(parent)
    ensures NestedForest(PlaceForest(f, obj, parent))
    decreases f
  {
    if f != [] {
      var init, last := f[..|f| - 1], f[|f| - 1];
      var r := PlaceForest(f, obj, parent);
      if parent in TreeKeys(last) {
        PlaceInNested(last, obj, parent);
        assert r == init + [PlaceIn(last, obj, parent)];
      } else {
        assert NestedForest(init) by {
          forall i | 0 <= i < |init| ensures Nested(init[i]) {
            assert init[i] == f[i];
          }
        }
        PlaceForestNested(init, obj, parent);
        assert r == PlaceForest(init, obj, parent) + [last];
      }
    }
  }

  lemma {:induction false} PlaceInNested(t: Tree, obj: Test, parent: string)
    requires Nested(t) && ParentKey(obj) == Some(parent)
    ensures Nested(PlaceIn(t, obj, parent))
    decreases t
  {
    var r := PlaceIn(t, obj, parent);
    if Key(t.value) != parent {
      assert NestedForest(t.children);
      PlaceForestNested(t.children, obj, parent);
      PlaceForestRoots(t.children, obj, parent);
      assert r.children == PlaceForest(t.children, obj, parent);
    }
  }

  /** `insert`: under the node of the parent name when there is one, at the
      top level otherwise. */
  function Placed(f: seq<Tree>, obj: Test): seq<Tree>
  {
    match ParentKey(obj)
    case Some(pk) => if pk in ForestKeys(f) then PlaceForest(f, obj, pk) else f + [Node(obj, [])]
    case None => f + [Node(obj, [])]
  }

  /** Inserting a new test adds it and nothing else, keeps the forest owned
      and nested, and makes it a root exactly when its parent is missing. */
  lemma PlacedProps(f: seq<Tree>, obj: Test)
    requires ForestOwned(f) && NestedForest(f) && obj !in ForestTests(f)
    ensures ForestTests(Placed(f, obj)) == ForestTests(f) + {obj}
    ensures ForestOwned(Placed(f, obj)) && NestedForest(Placed(f, obj))
    ensures (exists i | 0 <= i < |Placed(f, obj)| :: Placed(f, obj)[i].value == obj) <==>
      !(ParentKey(obj).Some? && ParentKey(obj).value in ForestKeys(f))
  {
    if ParentKey(obj).Some? && ParentKey(obj).value in ForestKeys(f) {
      PlacedUnder(f, obj, ParentKey(obj).value);
    } else {
      PlacedOnTop(f, obj);
    }
  }

  lemma PlacedUnder(f: seq<Tree>, obj: Test, pk: string)
    requires ForestOwned(f) && NestedForest(f) && obj !in ForestTests(f)
    requires ParentKey(obj) == Some(pk) && pk in ForestKeys(f)
    ensures ForestTests(PlaceForest(f, obj, pk)) == ForestTests(f) + {obj}
    ensures ForestOwned(PlaceForest(f, obj, pk)) && NestedForest(PlaceForest(f, obj, pk))
    ensures forall i | 0 <= i < |PlaceForest(f, obj, pk)| :: PlaceForest(f, obj, pk)[i].value != obj
  {
    PlaceForestTests(f, obj, pk);
    PlaceForestOwned(f, obj, pk);
    PlaceForestNested(f, obj, pk);
    PlaceForestRoots(f, obj, pk);
    var r := PlaceForest(f, obj, pk);
    forall i | 0 <= i < |r| ensures r[i].value != obj {
      ForestTestsAt(f, i);
      NodeForest(f[i]);
    }
  }

  lemma PlacedOnTop(f: seq<Tree>, obj: Test)
    requires ForestOwned(f) && NestedForest(f) && obj !in ForestTests(f)
    ensures ForestTests(f + [Node(obj, [])]) == ForestTests(f) + {obj}
    ensures ForestOwned(f + [Node(obj, [])]) && NestedForest(f + [Node(obj, [])])
    ensures (f + [Node(obj, [])])[|f|].value == obj
  {
    var leaf := Node(obj, []);
    NodeForest(leaf);
    assert (f + [leaf])[..|f|] == f;
  }

  /** The index's keys are the forest's keys. */
  lemma IndexKeys(tests: map<string, Test>, f: seq<Tree>)
    requires forall k | k in tests :: Key(tests[k]) == k
    requires ForestTests(f) == tests.Values
    ensures tests.Keys == ForestKeys(f)
  {
    forall key | key in ForestKeys(f) ensures key in tests {
      var x :| x in ForestTests(f) && Key(x) == key;
      var k :| k in tests && tests[k] == x;
    }
  }

  /** Adding a test under its own new key adds its value and keeps each
      key pointing at a test of that key. */
  lemma IndexInsert(tests: map<string, Test>, obj: Test, t: map<string, Test>)
    requires forall k | k in tests :: Key(tests[k]) == k
    requires Key(obj) !in tests && t == tests[Key(obj) := obj]
    ensures t.Values == tests.Values + {obj} && t.Keys == tests.Keys + {Key(obj)}
    ensures forall k | k in t :: Key(t[k]) == k
  {
    forall x | x in tests.Values ensures x in t.Values {
      var k :| k in tests && tests[k] == x;
      assert t[k] == x;
    }
    assert t[Key(obj)] == obj;
  }

  /** The trie under the synthetic root, and the index `find` looks in. */
  class Trie {
    var roots: seq<Tree>
    var tests: map<string, Test>

    ghost predicate Valid()
      reads this
    {
      (forall k | k in tests :: Key(tests[k]) == k) &&
      ForestTests(roots) == tests.Values && ForestOwned(roots) && NestedForest(roots)
    }

    /** `&prefixNode{}` */
    constructor ()
      ensures Valid() && roots == [] && tests == map[]
    {
      roots := [];
      tests := map[];
    }

    /** `find`: the test of the forest with that key, if any. */
    function Find(key: string): (r: Option<Test>)
      reads this
      requires Valid()
      ensures r.Some? <==> key in ForestKeys(roots)
      ensures r.Some? ==> r.value in ForestTests(roots) && Key(r.value) == key
    {
      IndexKeys(tests, roots);
      if key in tests then Some(tests[key]) else None
    }

    /** `insert` of a test whose key is not there yet. */
    method Insert(obj: Test)
      requires Valid() && Key(obj) !in ForestKeys(roots)
      modifies this
      ensures Valid()
      ensures tests == old(tests)[Key(obj) := obj] && tests.Keys == old(tests.Keys) + {Key(obj)}
      ensures roots == Placed(old(roots), obj)
    {
      IndexKeys(tests, roots);
      PlacedProps(roots, obj);
      var index := tests[Key(obj) := obj];
      IndexInsert(tests, obj, index);
      var pk := ParentKey(obj);
      if pk.Some? && pk.value in tests {
        roots := PlaceForest(roots, obj, pk.value);
      } else {
        roots := roots + [Node(obj, [])];
      }
      tests := index;
    }
  }
}
