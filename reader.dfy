/** `Reader.ReadAll`: fold every decoded line into the test it is keyed by,
    then walk each top-level test with a fresh context. */
module Reader {
  import opened Walk
  import opened Trie

  /** One scanned line: the record decoded from it (as far as decoding got),
      whether decoding failed, and whether the context was done when the line
      was scanned. */
  datatype Line = Line(row: Entry, decodeFailed: bool, cancelled: bool)

  /** `Set` with its joined error reduced to the number of decode errors, or
      the cancellation error with an empty `Set`. */
  datatype Outcome = Cancelled | Finished(errors: nat, tests: seq<NestedTest>)

  /** The number of lines that failed to decode. */
  function Errors(lines: seq<Line>): nat
  {
    if lines == [] then 0
    else Errors(lines[..|lines| - 1]) + if lines[|lines| - 1].decodeFailed then 1 else 0
  }

  predicate Named(e: Entry)
  {
    |e.testName| > 0
  }

  function RowKey(e: Entry): string
  {
    e.package + "/" + e.testName
  }

  /** The keys of the named rows. */
  function KeysSeen(lines: seq<Line>): set<string>
  {
    set i | 0 <= i < |lines| && Named(lines[i].row) :: RowKey(lines[i].row)
  }

  /** The named rows with key `k`, in order, decoded or not. */
  function Select(lines: seq<Line>, k: string): seq<Entry>
  {
    if lines == [] then []
    else
      var e := lines[|lines| - 1].row;
      Select(lines[..|lines| - 1], k) + if Named(e) && RowKey(e) == k then [e] else []
  }

  /** `update` applied to the rows in order, from a new test's fields. */
  function FoldRows(update: (Fields, Entry) -> Fields, rows: seq<Entry>): Fields
  {
    if rows == [] then Fields([], "") else update(FoldRows(update, rows[..|rows| - 1]), rows[|rows| - 1])
  }

  lemma FoldRowsStep(update: (Fields, Entry) -> Fields, rows: seq<Entry>, row: Entry)
    ensures FoldRows(update, rows + [row]) == update(FoldRows(update, rows), row)
  {
    assert (rows + [row])[..|rows|] == rows;
  }

  /** What the test keyed `k` holds after `lines`. */
  function Folded(update: (Fields, Entry) -> Fields, lines: seq<Line>, k: string): Fields
  {
    FoldRows(update, Select(lines, k))
  }

  /** A key has been seen exactly when some row was selected for it. */
  lemma {:induction false} SeenIffSelected(lines: seq<Line>, k: string)
    ensures k in KeysSeen(lines) <==> Select(lines, k) != []
  {
    if lines != [] {
      var init := lines[..|lines| - 1];
      SeenIffSelected(init, k);
      LinesStep(init, lines[|lines| - 1], k);
      assert init + [lines[|lines| - 1]] == lines;
    }
  }

  /** One more line: its row joins its key's selection, and its key the
      keys seen, when it is named. */
  lemma LinesStep(done: seq<Line>, line: Line, k: string)
    ensures Named(line.row) && RowKey(line.row) == k ==> Select(done + [line], k) == Select(done, k) + [line.row]
    ensures !(Named(line.row) && RowKey(line.row) == k) ==> Select(done + [line], k) == Select(done, k)
    ensures Named(line.row) ==> KeysSeen(done + [line]) == KeysSeen(done) + {RowKey(line.row)}
    ensures !Named(line.row) ==> KeysSeen(done + [line]) == KeysSeen(done)
    ensures Errors(done + [line]) == Errors(done) + if line.decodeFailed then 1 else 0
  {
    var all := done + [line];
    assert all[..|done|] == done;
    assert Select(done, k) + [] == Select(done, k);
    forall key | key in KeysSeen(done) ensures key in KeysSeen(all) {
      var i :| 0 <= i < |done| && Named(done[i].row) && RowKey(done[i].row) == key;
      assert all[i] == done[i];
    }
    if Named(line.row) {
      assert all[|done|] == line;
    }
  }

  /** The tests of `trie` hold what folding `lines` into them gives. */
  ghost predicate Grouped(trie: Trie, update: (Fields, Entry) -> Fields, lines: seq<Line>)
    reads trie, trie.tests.Values
  {
    forall k | k in trie.tests :: Fields(trie.tests[k].output, trie.tests[k].status) == Folded(update, lines, k)
  }

  /** `reader.go` lines 59-73: a named row is folded into the test of its key, created and
      inserted first when the key is new; an unnamed row changes nothing. */
  method FoldLine(trie: Trie, line: Line, update: (Fields, Entry) -> Fields, ghost done: seq<Line>)
    requires trie.Valid() && trie.tests.Keys == KeysSeen(done) && Grouped(trie, update, done)
    modifies trie, trie.tests.Values
    ensures trie.Valid() && trie.tests.Keys == KeysSeen(done + [line]) && Grouped(trie, update, done + [line])
    ensures forall x | x in trie.tests.Values :: x in old(trie.tests.Values) || fresh(x)
  {
    LinesStep(done, line, "");
    if |line.row.testName| > 0 {
      var tc := Lookup(trie, line.row, update, done);
      Apply(trie, tc, line, update, done);
    } else {
      forall k | k in trie.tests ensures Folded(update, done + [line], k) == Folded(update, done, k) {
        LinesStep(done, line, k);
      }
    }
  }

  /** `reader.go` lines 60-70: the test of the row's key, created and inserted on a
      miss. */
  method Lookup(trie: Trie, row: Entry, update: (Fields, Entry) -> Fields, ghost done: seq<Line>) returns (tc: Test)
    requires Named(row) && trie.Valid() && trie.tests.Keys == KeysSeen(done) && Grouped(trie, update, done)
    modifies trie
    ensures trie.Valid() && trie.tests.Keys == old(trie.tests.Keys) + {RowKey(row)} && Grouped(trie, update, done)
    ensures RowKey(row) in trie.tests && trie.tests[RowKey(row)] == tc
    ensures forall x | x in trie.tests.Values :: x in old(trie.tests.Values) || fresh(x)
  {
    var key := row.package + "/" + row.testName;
    IndexKeys(trie.tests, trie.roots);
    var found := trie.Find(key);
    if found.Some? {
      tc := found.value;
      assert Key(trie.tests[key]) == key;
    } else {
      tc := AddTest(trie, row, update, done);
    }
  }

  /** `reader.go` lines 63-69: a new test for an unseen key holds what no rows fold
      to. */
  method AddTest(trie: Trie, row: Entry, update: (Fields, Entry) -> Fields, ghost done: seq<Line>) returns (tc: Test)
    requires Named(row) && trie.Valid() && trie.tests.Keys == KeysSeen(done) && Grouped(trie, update, done)
    requires RowKey(row) !in trie.tests
    modifies trie
    ensures fresh(tc) && trie.tests == old(trie.tests)[RowKey(row) := tc]
    ensures trie.tests.Keys == old(trie.tests.Keys) + {RowKey(row)}
    ensures trie.Valid() && Grouped(trie, update, done)
  {
    tc := new Test(row.testName, row.package);
    SeenIffSelected(done, RowKey(row));
    IndexKeys(trie.tests, trie.roots);
    trie.Insert(tc);
  }

  /** `reader.go` line 72: `tc.Update(row)` on the test of the row's key moves that key's
      fold one row on and leaves every other test as it was. */
  method Apply(trie: Trie, tc: Test, line: Line, update: (Fields, Entry) -> Fields, ghost done: seq<Line>)
    requires Named(line.row) && trie.Valid() && Grouped(trie, update, done)
    requires RowKey(line.row) in trie.tests && trie.tests[RowKey(line.row)] == tc
    modifies tc`output, tc`status
    ensures Grouped(trie, update, done + [line])
  {
    tc.Update(line.row, update);
    forall k | k in trie.tests
      ensures Fields(trie.tests[k].output, trie.tests[k].status) == Folded(update, done + [line], k)
    {
      LinesStep(done, line, k);
      if k == RowKey(line.row) {
        FoldRowsStep(update, Select(done, k), line.row);
      } else {
        assert Key(trie.tests[k]) == k;
      }
    }
  }

  /** `reader.go` lines 37-74: the fold loop. It stops at the first line scanned once the
      context is done; a line that fails to decode adds one error and its row
      is still folded. */
  method Fold(lines: seq<Line>, update: (Fields, Entry) -> Fields) returns (cancelled: bool, errs: nat, trie: Trie)
    ensures fresh(trie) && trie.Valid() && forall x | x in trie.tests.Values :: fresh(x)
    ensures cancelled <==> AnyCancelled(lines)
    ensures !cancelled ==> errs == Errors(lines) && trie.tests.Keys == KeysSeen(lines)
    ensures !cancelled ==> Grouped(trie, update, lines)
  {
    trie := new Trie();
    errs := 0;
    var i := 0;
    while i < |lines|
      invariant 0 <= i <= |lines|
      invariant fresh(trie) && trie.Valid() && forall x | x in trie.tests.Values :: fresh(x)
      invariant !AnyCancelled(lines[..i]) && Folding(trie, update, lines[..i], errs)
    {
      if lines[i].cancelled {
        CancelAt(lines, i);
        return true, 0, trie;
      }
      errs := FoldStep(trie, lines[i], update, lines[..i], errs);
      TakeNext(lines, i);
      i := i + 1;
    }
    TakeAll(lines);
    cancelled := false;
  }

  /** After the lines `done`: `errs` errors, one test per key seen, each
      holding its key's fold. */
  ghost predicate Folding(trie: Trie, update: (Fields, Entry) -> Fields, done: seq<Line>, errs: nat)
    reads trie, trie.tests.Values
  {
    trie.Valid() && errs == Errors(done) && trie.tests.Keys == KeysSeen(done) && Grouped(trie, update, done)
  }

  /** One turn of the loop of `reader.go` lines 46-73 on a line scanned before the
      context is done. */
  method FoldStep(trie: Trie, line: Line, update: (Fields, Entry) -> Fields, ghost done: seq<Line>, errs: nat)
    returns (errs': nat)
    requires !AnyCancelled(done) && !line.cancelled && Folding(trie, update, done, errs)
    modifies trie, trie.tests.Values
    ensures !AnyCancelled(done + [line]) && Folding(trie, update, done + [line], errs')
    ensures forall x | x in trie.tests.Values :: x in old(trie.tests.Values) || fresh(x)
  {
    errs' := errs;
    if line.decodeFailed {
      errs' := errs + 1;
    }
    FoldLine(trie, line, update, done);
    LinesStep(done, line, "");
    CancelStep(done, line);
  }

  lemma TakeNext(lines: seq<Line>, i: nat)
    requires i < |lines|
    ensures lines[..i + 1] == lines[..i] + [lines[i]]
  {
  }

  lemma TakeAll(lines: seq<Line>)
    ensures lines[..|lines|] == lines
  {
  }

  predicate AnyCancelled(lines: seq<Line>)
  {
    exists i | 0 <= i < |lines| :: lines[i].cancelled
  }

  lemma CancelStep(done: seq<Line>, line: Line)
    requires !AnyCancelled(done) && !line.cancelled
    ensures !AnyCancelled(done + [line])
  {
    forall i | 0 <= i < |done| + 1 ensures !(done + [line])[i].cancelled {
      if i < |done| {
        assert (done + [line])[i] == done[i];
      }
    }
  }

  lemma CancelAt(lines: seq<Line>, i: nat)
    requires i < |lines| && lines[i].cancelled
    ensures AnyCancelled(lines)
  {
  }

  /** `reader.go` lines 83-91: each top-level node walked with a fresh context, the ok
      results kept in order. `root` is the synthetic root over them and `s`
      its snapshot before the walks. */
  method WalkRoots(root: Tree, ghost s: Snap) returns (results: seq<NestedTest>)
    requires root.Node? && Owned(root)
    requires s.Present? && |s.children| == |root.children|
    requires WalkedUpTo(root, s, "", 0, [])
    modifies TestsUpTo(root, |root.children|)`output
    ensures WalkedUpTo(root, s, "", |root.children|, results)
  {
    results := [];
    var i := 0;
    while i < |root.children|
      invariant 0 <= i <= |root.children|
      invariant WalkedUpTo(root, s, "", i, results)
    {
      results := WalkRoot(root, i, s, results);
      i := i + 1;
    }
  }

  /** One turn of the loop of `reader.go` lines 84-88: top-level node `i` walked with a
      fresh context, its result appended when ok. */
  method WalkRoot(root: Tree, i: nat, ghost s: Snap, results: seq<NestedTest>) returns (r: seq<NestedTest>)
    requires root.Node? && Owned(root) && i < |root.children|
    requires s.Present? && |s.children| == |root.children|
    requires WalkedUpTo(root, s, "", i, results)
    modifies Tests(root.children[i])`output
    ensures WalkedUpTo(root, s, "", i + 1, r)
  {
    OwnedChild(root, i, |root.children|);
    UpToAllocated(root, |root.children|);
    var p := new PrefixLog();
    assert SiblingsAt(root, s, "", i);
    label before:
    var tc, ok := Walk.Walk(root.children[i], p);
    SiblingsStep@before(root, s, "", i);
    assert Tail(p.buf.data, p.pos) == Written(s.children[i], "");
    r := results;
    if ok {
      r := results + [tc];
      assert r[..|r| - 1] == results;
    }
  }

  /** `rs` are the ok walks of the top-level snapshots `f`, each with a fresh
      context, in order. */
  ghost predicate RootsWalked(f: seq<Snap>, rs: seq<NestedTest>)
  {
    ChildrenWalked(Present(TestValue("", "", [], ""), f), "", |f|, rs)
  }

  /** Every node of `s` is present and holds its key's fold of `lines`. */
  ghost predicate SnapFolded(s: Snap, update: (Fields, Entry) -> Fields, lines: seq<Line>)
  {
    s.Present? &&
    Fields(s.value.output, s.value.status) == Folded(update, lines, s.value.package + "/" + s.value.name) &&
    forall i | 0 <= i < |s.children| :: SnapFolded(s.children[i], update, lines)
  }

  /** The keys of the tests in a snapshot. */
  function SnapKeys(s: Snap): set<string>
    decreases s
  {
    match s
    case Missing => {}
    case Present(v, cs) => {v.package + "/" + v.name} + ListKeys(cs)
  }

  function ListKeys(f: seq<Snap>): set<string>
    decreases f
  {
    if f == [] then {} else ListKeys(f[..|f| - 1]) + SnapKeys(f[|f| - 1])
  }

  /** No key occurs at two nodes of the snapshot. */
  ghost predicate SnapDistinct(s: Snap)
    decreases s
  {
    match s
    case Missing => true
    case Present(v, cs) => v.package + "/" + v.name !in ListKeys(cs) && ListDistinct(cs)
  }

  ghost predicate ListDistinct(f: seq<Snap>)
    decreases f
  {
    f == [] ||
    (ListDistinct(f[..|f| - 1]) && SnapDistinct(f[|f| - 1]) && SnapKeys(f[|f| - 1]) !! ListKeys(f[..|f| - 1]))
  }

  /** Two tests of `tests` with the same key are the same test. */
  ghost predicate KeyInjective(tests: set<Test>)
  {
    forall x, y | x in tests && y in tests && Key(x) == Key(y) :: x == y
  }

  /** An index whose keys are its tests' keys holds one test per key. */
  lemma IndexInjective(tests: map<string, Test>)
    requires forall k | k in tests :: Key(tests[k]) == k
    ensures KeyInjective(tests.Values)
  {
    forall x, y | x in tests.Values && y in tests.Values && Key(x) == Key(y) ensures x == y {
      var kx :| kx in tests && tests[kx] == x;
      var ky :| ky in tests && tests[ky] == y;
    }
  }

  /** Tests of two disjoint sets under one key-injective set have disjoint keys. */
  lemma DisjointKeys(a: set<Test>, b: set<Test>, tests: set<Test>)
    requires a <= tests && b <= tests && a !! b && KeyInjective(tests)
    ensures (set x | x in a :: Key(x)) !! (set x | x in b :: Key(x))
  {
    forall x, y | x in a && y in b ensures Key(x) != Key(y) {
      assert x != y;
    }
  }

  /** A tree whose tests are owned and keyed one-to-one snapshots with no key twice. */
  lemma {:induction false} TreeDistinct(t: Tree, tests: set<Test>)
    requires Owned(t) && Tests(t) <= tests && KeyInjective(tests)
    ensures SnapDistinct(SnapOf(t))
    decreases t, if t.Node? then |t.children| + 1 else 0
  {
    if t.Node? {
      var n := |t.children|;
      assert TestsUpTo(t, n) <= Tests(t);
      UpToDistinct(t, n, tests);
      KeysUpTo(t, n);
      TestsUpToForest(t, n);
      forall y | y in TestsUpTo(t, n) ensures Key(y) != Key(t.value) {
        assert y != t.value;
      }
      assert t.children[..n] == t.children;
    }
  }

  lemma {:induction false} UpToDistinct(t: Tree, i: nat, tests: set<Test>)
    requires t.Node? && i <= |t.children| && OwnedUpTo(t, i) && TestsUpTo(t, i) <= tests && KeyInjective(tests)
    ensures ListDistinct(SnapsUpTo(t, i))
    decreases t, i
  {
    if i > 0 {
      assert TestsUpTo(t, i - 1) <= TestsUpTo(t, i) && Tests(t.children[i - 1]) <= TestsUpTo(t, i);
      UpToDistinct(t, i - 1, tests);
      TreeDistinct(t.children[i - 1], tests);
      LastKeysApart(t, i, tests);
      var f := SnapsUpTo(t, i);
      assert f[..|f| - 1] == SnapsUpTo(t, i - 1);
    }
  }

  /** Child `i - 1` shares no key with the children before it. */
  lemma LastKeysApart(t: Tree, i: nat, tests: set<Test>)
    requires t.Node? && 0 < i <= |t.children| && OwnedUpTo(t, i) && TestsUpTo(t, i) <= tests && KeyInjective(tests)
    ensures SnapKeys(SnapOf(t.children[i - 1])) !! ListKeys(SnapsUpTo(t, i - 1))
  {
    var c := t.children[i - 1];
    assert TestsUpTo(t, i - 1) <= TestsUpTo(t, i) && Tests(c) <= TestsUpTo(t, i);
    KeysOfTree(c);
    KeysUpTo(t, i - 1);
    TestsUpToForest(t, i - 1);
    DisjointKeys(Tests(c), TestsUpTo(t, i - 1), tests);
  }

  lemma {:induction false} KeysOfTree(t: Tree)
    ensures SnapKeys(SnapOf(t)) == TreeKeys(t)
    decreases t, if t.Node? then |t.children| + 1 else 0
  {
    if t.Node? {
      KeysUpTo(t, |t.children|);
      NodeForest(t);
      assert t.children[..|t.children|] == t.children;
      assert TreeKeys(t) == {Key(t.value)} + ForestKeys(t.children);
    }
  }

  lemma {:induction false} KeysUpTo(t: Tree, i: nat)
    requires t.Node? && i <= |t.children|
    ensures ListKeys(SnapsUpTo(t, i)) == ForestKeys(t.children[..i])
    decreases t, i
  {
    if i > 0 {
      KeysUpTo(t, i - 1);
      KeysOfTree(t.children[i - 1]);
      var a, b := SnapsUpTo(t, i - 1), SnapOf(t.children[i - 1]);
      assert (a + [b])[..|a|] == a;
      assert t.children[..i][..i - 1] == t.children[..i - 1];
      assert ForestKeys(t.children[..i]) == ForestKeys(t.children[..i - 1]) + TreeKeys(t.children[i - 1]);
    }
  }

  /** A nested tree whose tests all sit in a grouped index snapshots to
      folded values only. */
  lemma {:induction false} TreeFolded(t: Tree, trie: Trie, update: (Fields, Entry) -> Fields, lines: seq<Line>)
    requires Nested(t) && Tests(t) <= trie.tests.Values
    requires forall k | k in trie.tests :: Key(trie.tests[k]) == k
    requires Grouped(trie, update, lines)
    ensures SnapFolded(SnapOf(t), update, lines)
    decreases t
  {
    var k :| k in trie.tests && trie.tests[k] == t.value;
    SnapsUpToAt(t, |t.children|);
    TestsUpToGrows(t, 0, |t.children|);
    forall j | 0 <= j < |t.children| ensures SnapFolded(SnapOf(t).children[j], update, lines) {
      TreeFolded(t.children[j], trie, update, lines);
    }
  }

  /** The snapshot of the forest right after the fold: one present node per
      key seen, each holding its key's fold. */
  lemma FoldedForest(root: Tree, trie: Trie, update: (Fields, Entry) -> Fields, lines: seq<Line>)
    requires root.Node? && root.children == trie.roots && trie.Valid()
    requires trie.tests.Keys == KeysSeen(lines) && Grouped(trie, update, lines)
    ensures ListKeys(SnapsUpTo(root, |root.children|)) == KeysSeen(lines)
    ensures forall i | 0 <= i < |root.children| :: SnapFolded(SnapsUpTo(root, |root.children|)[i], update, lines)
  {
    KeysUpTo(root, |root.children|);
    assert root.children[..|root.children|] == root.children;
    IndexKeys(trie.tests, trie.roots);
    SnapsUpToAt(root, |root.children|);
    forall i | 0 <= i < |root.children| ensures SnapFolded(SnapOf(root.children[i]), update, lines) {
      ForestTestsAt(trie.roots, i);
      TreeFolded(root.children[i], trie, update, lines);
    }
  }

  /** `ReadAll`: the cancellation error when the context is done at some
      scanned line; otherwise the decode errors and the ok walks, in order,
      of the top-level tests as the fold left them, one node per key seen. */
  method ReadAll(lines: seq<Line>, update: (Fields, Entry) -> Fields) returns (r: Outcome, ghost folded: seq<Snap>)
    ensures r.Cancelled? <==> AnyCancelled(lines)
    ensures r.Finished? ==> r.errors == Errors(lines) && RootsWalked(folded, r.tests)
    ensures r.Finished? ==> ListKeys(folded) == KeysSeen(lines) && ListDistinct(folded)
    ensures r.Finished? ==> forall i | 0 <= i < |folded| :: SnapFolded(folded[i], update, lines)
  {
    var cancelled, errs, trie := Fold(lines, update);
    if cancelled {
      return Cancelled, [];
    }
    var tests;
    tests, folded := WalkFolded(trie, update, lines);
    r := Finished(errs, tests);
  }

  /** `reader.go` lines 83-91 after a complete fold: each top-level test walked with a
      fresh context, the ok results kept. */
  method WalkFolded(trie: Trie, update: (Fields, Entry) -> Fields, lines: seq<Line>)
    returns (tests: seq<NestedTest>, ghost folded: seq<Snap>)
    requires trie.Valid() && trie.tests.Keys == KeysSeen(lines) && Grouped(trie, update, lines)
    modifies trie.tests.Values
    ensures RootsWalked(folded, tests)
    ensures ListKeys(folded) == KeysSeen(lines) && ListDistinct(folded)
    ensures forall i | 0 <= i < |folded| :: SnapFolded(folded[i], update, lines)
  {
    var top := new Test("", "");
    var root := Node(top, trie.roots);
    TestsUpToForest(root, |root.children|);
    assert root.children[..|root.children|] == root.children;
    ghost var s := SnapOf(root);
    FoldedForest(root, trie, update, lines);
    IndexInjective(trie.tests);
    UpToDistinct(root, |root.children|, trie.tests.Values);
    SiblingsAtStart(root, s, "");
    tests := WalkRoots(root, s);
    folded := s.children;
  }
}
