/** The test tree, the `prefixLog` context and the recursive `walk` that
    rebuilds each node's own log from the bytes its subtree writes into one
    shared buffer. */
module Walk {
  import opened GoStrings
  import opened Rows

  /** `bytes.Buffer`: the growable buffer every context of one top-level walk
      shares. */
  class LogBuffer {
    var data: string

    constructor ()
      ensures data == []
    {
      data := [];
    }

    method WriteString(s: string)
      modifies this`data
      ensures data == old(data) + s
    {
      data := data + s;
    }
  }

  /** `Entry`: one decoded event line. */
  datatype Entry = Entry(package: string, testName: string, action: string, output: string)

  /** The fields of a `Test` that folding an event into it can change. */
  datatype Fields = Fields(output: seq<string>, status: string)

  /** `Test`: the record the reader accumulates for one test. `status` stands
      for the verdict fields the reader folds in and the walk only copies. */
  class Test {
    const name: string
    const package: string
    var output: seq<string>
    var status: string

    constructor (name: string, package: string)
      ensures this.name == name && this.package == package
      ensures output == [] && status == ""
    {
      this.name := name;
      this.package := package;
      output := [];
      status := "";
    }

    /** `Test.Update`: how an event is folded into the record is not part of
        this model, so the fold is the given `update`. */
    method Update(row: Entry, update: (Fields, Entry) -> Fields)
      modifies this`output, this`status
      ensures Fields(output, status) == update(Fields(old(output), old(status)), row)
    {
      var f := update(Fields(output, status), row);
      output := f.output;
      status := f.status;
    }
  }

  /** A copy of a `Test`'s fields, as `NestedTest.Value` holds it. */
  datatype TestValue = TestValue(name: string, package: string, output: seq<string>, status: string)

  /** `prefixNode`: `Nil` is a nil node pointer. */
  datatype Tree = Nil | Node(value: Test, children: seq<Tree>)

  /** `NestedTest`: the walked tree with each node's finished log. */
  datatype NestedTest = NestedTest(value: TestValue, children: seq<NestedTest>, log: string)

  /** `prefixLog` */
  class PrefixLog {
    var prefix: string
    var buf: LogBuffer
    var pos: nat

    /** `newPrefixLog`: a fresh empty buffer, no prefix, position 0. */
    constructor ()
      ensures prefix == [] && pos == 0
      ensures fresh(buf) && buf.data == []
    {
      prefix := [];
      buf := new LogBuffer();
      pos := 0;
    }

    /** `copy`: shares the buffer and the prefix, and starts at the buffer's
        current end. */
    method Copy() returns (r: PrefixLog)
      ensures fresh(r)
      ensures r.buf == buf && r.prefix == prefix && r.pos == |buf.data|
    {
      r := new PrefixLog();
      r.buf := buf;
      r.prefix := prefix;
      r.pos := |buf.data|;
    }

    /** `incrPrefix` */
    method IncrPrefix()
      modifies this`prefix
      ensures prefix == old(prefix) + Indent
    {
      prefix := prefix + Indent;
    }

    /** `decrPrefix` */
    method DecrPrefix()
      modifies this`prefix
      ensures prefix == TrimSuffix(old(prefix), Indent)
    {
      prefix := TrimSuffix(prefix, Indent);
    }
  }

  /** Taking a unit off after putting one on gives the prefix back. */
  lemma IncrThenDecr(prefix: string)
    ensures TrimSuffix(prefix + Indent, Indent) == prefix
  {
    TrimSuffixUndoesAppend(prefix, Indent);
  }

  /** The prefix a node `depth` levels below a top-level walk writes with. */
  lemma {:induction false} PrefixAtDepth(depth: nat)
    ensures |Units(depth)| == 4 * depth
    ensures TrimSuffix(Units(depth) + Indent, Indent) == Units(depth)
    ensures Units(depth) + Indent == Units(depth + 1)
  {
    IncrThenDecr(Units(depth));
    if depth > 0 {
      PrefixAtDepth(depth - 1);
    }
  }

  /** The tests of a tree. */
  function Tests(t: Tree): set<Test>
    decreases t, if t.Node? then |t.children| + 1 else 0
  {
    match t
    case Nil => {}
    case Node(v, cs) => {v} + TestsUpTo(t, |cs|)
  }

  /** The tests of the first `i` children of `t`. */
  function TestsUpTo(t: Tree, i: nat): set<Test>
    requires t.Node? && i <= |t.children|
    decreases t, i
  {
    if i == 0 then {} else TestsUpTo(t, i - 1) + Tests(t.children[i - 1])
  }

  lemma {:induction false} TestsUpToGrows(t: Tree, m: nat, n: nat)
    requires t.Node? && m <= n <= |t.children|
    ensures TestsUpTo(t, m) <= TestsUpTo(t, n)
    ensures forall j :: m <= j < n ==> Tests(t.children[j]) <= TestsUpTo(t, n)
    decreases n
  {
    if m < n {
      TestsUpToGrows(t, m, n - 1);
    }
  }

  /** Every test of a tree is an allocated object. */
  lemma {:induction false} Allocated(t: Tree)
    ensures forall x | x in Tests(t) :: allocated(x)
    decreases t, if t.Node? then |t.children| + 1 else 0
  {
    if t.Node? {
      UpToAllocated(t, |t.children|);
    }
  }

  lemma {:induction false} UpToAllocated(t: Tree, i: nat)
    requires t.Node? && i <= |t.children|
    ensures forall x | x in TestsUpTo(t, i) :: allocated(x)
    decreases t, i
  {
    if i > 0 {
      UpToAllocated(t, i - 1);
      Allocated(t.children[i - 1]);
    }
  }

  /** Each node owns its test: no test is shared between two nodes. */
  ghost predicate Owned(t: Tree)
    decreases t, if t.Node? then |t.children| + 1 else 0
  {
    match t
    case Nil => true
    case Node(v, cs) => v !in TestsUpTo(t, |cs|) && OwnedUpTo(t, |cs|)
  }

  ghost predicate OwnedUpTo(t: Tree, i: nat)
    requires t.Node? && i <= |t.children|
    decreases t, i
  {
    i == 0 ||
    (OwnedUpTo(t, i - 1) && Owned(t.children[i - 1]) && Tests(t.children[i - 1]) !! TestsUpTo(t, i - 1))
  }

  lemma {:induction false} OwnedChild(t: Tree, i: nat, n: nat)
    requires t.Node? && i < n <= |t.children|
    requires OwnedUpTo(t, n)
    ensures Owned(t.children[i]) && Tests(t.children[i]) !! TestsUpTo(t, i)
    ensures Tests(t.children[i]) <= TestsUpTo(t, n)
    decreases n
  {
    if i < n - 1 {
      OwnedChild(t, i, n - 1);
    }
  }

  /** `output[idx] = prefix.prefix + output[idx]` for result rows only. */
  function PrefixRow(row: string, prefix: string): string
  {
    if IsResultRow(row) then prefix + row else row
  }

  function PrefixRows(rows: seq<string>, prefix: string): (r: seq<string>)
    ensures |r| == |rows|
  {
    if rows == [] then [] else PrefixRows(rows[..|rows| - 1], prefix) + [PrefixRow(rows[|rows| - 1], prefix)]
  }

  /** A prefixed row is still a result row and holds the prefix's units on
      top of its own. */
  lemma PrefixRowAtDepth(row: string, depth: nat)
    ensures IsResultRow(PrefixRow(row, Units(depth))) == IsResultRow(row)
    ensures IsResultRow(row) ==> IndentOf(PrefixRow(row, Units(depth))) == depth + IndentOf(row)
  {
    CountAfterUnits(depth, row);
    ActionTokens();
    if IsResultRow(row) {
      ContainsAfterPrefix(Units(depth), row, "---");
      if Contains(row, "FAIL") {
        ContainsAfterPrefix(Units(depth), row, "FAIL");
      } else if Contains(row, "PASS") {
        ContainsAfterPrefix(Units(depth), row, "PASS");
      } else {
        ContainsAfterPrefix(Units(depth), row, "SKIP");
      }
    }
  }

  lemma {:induction false} ContainsAfterPrefix(a: string, s: string, p: string)
    requires Contains(s, p)
    ensures Contains(a + s, p)
  {
    if a != [] {
      assert (a + s)[1..] == a[1..] + s;
      ContainsAfterPrefix(a[1..], s, p);
    } else {
      assert a + s == s;
    }
  }

  /** What a walk reads of a tree before it starts: each present node's
      test with its output as it stands, and its children. `Missing` is a
      nil node. */
  datatype Snap = Missing | Present(value: TestValue, children: seq<Snap>)

  function SnapOf(t: Tree): (r: Snap)
    reads Tests(t)`output, Tests(t)`status
    ensures r.Missing? <==> t.Nil?
    ensures t.Node? ==> r.value == TestValue(t.value.name, t.value.package, t.value.output, t.value.status)
    ensures t.Node? ==> |r.children| == |t.children|
    decreases t, if t.Node? then |t.children| + 1 else 0
  {
    match t
    case Nil => Missing
    case Node(v, cs) => Present(TestValue(v.name, v.package, v.output, v.status), SnapsUpTo(t, |cs|))
  }

  function SnapsUpTo(t: Tree, i: nat): (r: seq<Snap>)
    requires t.Node? && i <= |t.children|
    reads TestsUpTo(t, i)`output, TestsUpTo(t, i)`status
    ensures |r| == i
    decreases t, i
  {
    if i == 0 then [] else SnapsUpTo(t, i - 1) + [SnapOf(t.children[i - 1])]
  }

  /** A snapshot stays as it was while the outputs it holds do. */
  twostate lemma {:induction false} SnapUnchanged(t: Tree)
    requires forall x | x in Tests(t) :: old(allocated(x))
    requires forall x | x in Tests(t) :: x.output == old(x.output) && x.status == old(x.status)
    ensures SnapOf(t) == old(SnapOf(t))
    decreases t, if t.Node? then |t.children| + 1 else 0
  {
    if t.Node? {
      assert TestsUpTo(t, |t.children|) <= Tests(t);
      SnapsUnchanged(t, |t.children|);
    }
  }

  twostate lemma {:induction false} SnapsUnchanged(t: Tree, new i: nat)
    requires t.Node? && i <= |t.children|
    requires forall x | x in TestsUpTo(t, i) :: old(allocated(x))
    requires forall x | x in TestsUpTo(t, i) :: x.output == old(x.output) && x.status == old(x.status)
    ensures SnapsUpTo(t, i) == old(SnapsUpTo(t, i))
    decreases t, i
  {
    if i > 0 {
      assert TestsUpTo(t, i - 1) <= TestsUpTo(t, i);
      assert Tests(t.children[i - 1]) <= TestsUpTo(t, i);
      SnapsUnchanged(t, i - 1);
      SnapUnchanged(t.children[i - 1]);
    }
  }

  /** Child `j` of the snapshot is the snapshot of child `j`. */
  lemma {:induction false} SnapsUpToAt(t: Tree, i: nat)
    requires t.Node? && i <= |t.children|
    ensures forall j | 0 <= j < i :: SnapsUpTo(t, i)[j] == SnapOf(t.children[j])
    decreases i
  {
    if i > 0 {
      SnapsUpToAt(t, i - 1);
    }
  }

  /** The text a walk of `s` with `prefix` appends to the buffer: its own
      fragments, result rows prefixed, then its children's, each with one
      more unit. */
  function Written(s: Snap, prefix: string): string
    decreases s, if s.Present? then |s.children| + 1 else 0
  {
    match s
    case Missing => ""
    case Present(v, cs) => Concat(PrefixRows(v.output, prefix)) + WrittenUpTo(s, prefix + Indent, |cs|)
  }

  function WrittenUpTo(s: Snap, prefix: string, i: nat): string
    requires s.Present? && i <= |s.children|
    decreases s, i
  {
    if i == 0 then "" else WrittenUpTo(s, prefix, i - 1) + Written(s.children[i - 1], prefix)
  }

  /** `Seek(pos)` then `io.ReadAll` on a `bytes.Reader`: the bytes from `pos`
      on, none when `pos` is past the end. */
  function Tail(s: string, pos: nat): (r: string)
    ensures pos <= |s| ==> s == s[..pos] + r
    ensures pos > |s| ==> r == []
  {
    if pos <= |s| then s[pos..] else []
  }

  /** `testCase.Value = *node.Value` followed by `Output = Output[:0]`. */
  function ValueOf(v: Test): (r: TestValue)
    reads v`status
    ensures r.output == []
    ensures r.name == v.name && r.package == v.package && r.status == v.status
  {
    TestValue(v.name, v.package, [], v.status)
  }

  /** `tc` is what walking `s` with `prefix` returns when the walk's own
      slice of the buffer is `text`: the test without its output, the log of
      `text`, and the walked children. */
  ghost predicate WalkedAs(s: Snap, prefix: string, text: string, tc: NestedTest)
    decreases s, if s.Present? then |s.children| + 1 else 0
  {
    s.Present? && tc.value == s.value.(output := []) && IsLogOf(text, tc.log) &&
    ChildrenWalked(s, prefix + Indent, |s.children|, tc.children)
  }

  /** `rs` are the walks of the first `i` children that returned ok, in
      order; a missing child is left out. Each child's text is what it
      wrote, since its context starts at the buffer's end. */
  ghost predicate ChildrenWalked(s: Snap, prefix: string, i: nat, rs: seq<NestedTest>)
    requires s.Present? && i <= |s.children|
    decreases s, i
  {
    if i == 0 then rs == []
    else if s.children[i - 1].Missing? then ChildrenWalked(s, prefix, i - 1, rs)
    else
      |rs| > 0 && ChildrenWalked(s, prefix, i - 1, rs[..|rs| - 1]) &&
      WalkedAs(s.children[i - 1], prefix, Written(s.children[i - 1], prefix), rs[|rs| - 1])
  }

  /** `reader.go` lines 119-127: the node's fragments go to the buffer in order, result
      rows first getting the prefix, written back into the output in place. */
  method EmitOwnOutput(v: Test, p: PrefixLog)
    modifies v`output, p.buf`data
    ensures v.output == PrefixRows(old(v.output), p.prefix)
    ensures p.buf.data == old(p.buf.data) + Concat(v.output)
  {
    ghost var rows := v.output;
    var idx := 0;
    while idx < |v.output|
      invariant idx <= |v.output| == |rows|
      invariant v.output == PrefixRows(rows[..idx], p.prefix) + rows[idx..]
      invariant p.buf.data == old(p.buf.data) + Concat(PrefixRows(rows[..idx], p.prefix))
    {
      PrefixRowsStep(rows, idx, p.prefix);
      AppendAssoc(old(p.buf.data), Concat(PrefixRows(rows[..idx], p.prefix)), PrefixRow(rows[idx], p.prefix));
      if IsResultRow(v.output[idx]) {
        v.output := v.output[idx := p.prefix + v.output[idx]];
      }
      assert v.output[idx] == PrefixRow(rows[idx], p.prefix);
      p.buf.WriteString(v.output[idx]);
      idx := idx + 1;
    }
    assert rows[..idx] == rows;
  }

  /** One more fragment handled by the loop of `reader.go` lines 122-127. */
  lemma PrefixRowsStep(rows: seq<string>, idx: nat, prefix: string)
    requires idx < |rows|
    ensures (PrefixRows(rows[..idx], prefix) + rows[idx..])[idx] == rows[idx]
    ensures (PrefixRows(rows[..idx], prefix) + rows[idx..])[idx := PrefixRow(rows[idx], prefix)] ==
      PrefixRows(rows[..idx + 1], prefix) + rows[idx + 1..]
    ensures Concat(PrefixRows(rows[..idx + 1], prefix)) ==
      Concat(PrefixRows(rows[..idx], prefix)) + PrefixRow(rows[idx], prefix)
  {
    var a := PrefixRows(rows[..idx], prefix);
    var b := PrefixRows(rows[..idx + 1], prefix);
    assert rows[..idx + 1][..idx] == rows[..idx];
    assert b == a + [PrefixRow(rows[idx], prefix)];
    ConcatAppend(a, [PrefixRow(rows[idx], prefix)]);
    assert Concat([PrefixRow(rows[idx], prefix)]) == PrefixRow(rows[idx], prefix);
    assert rows[idx..] == [rows[idx]] + rows[idx + 1..];
  }

  /** Appending to the buffer in two steps is appending the two texts at once. */
  lemma AppendAssoc(a: string, b: string, c: string)
    ensures (a + b) + c == a + (b + c)
  {
  }

  const NoTest: NestedTest := NestedTest(TestValue("", "", [], ""), [], [])

  /** What a walk of `s` with `prefix` leaves behind: every result row of a
      node's output carries the prefix of that node's depth. */
  function Prefixed(s: Snap, prefix: string): (r: Snap)
    decreases s, if s.Present? then |s.children| + 1 else 0
  {
    match s
    case Missing => Missing
    case Present(v, cs) => Present(v.(output := PrefixRows(v.output, prefix)), PrefixedUpTo(s, prefix + Indent, |cs|))
  }

  function PrefixedUpTo(s: Snap, prefix: string, i: nat): (r: seq<Snap>)
    requires s.Present? && i <= |s.children|
    ensures |r| == i
    decreases s, i
  {
    if i == 0 then [] else PrefixedUpTo(s, prefix, i - 1) + [Prefixed(s.children[i - 1], prefix)]
  }

  lemma {:induction false} PrefixRowsAt(rows: seq<string>, prefix: string, k: nat)
    requires k < |rows|
    ensures PrefixRows(rows, prefix)[k] == PrefixRow(rows[k], prefix)
    decreases |rows|
  {
    if k < |rows| - 1 {
      PrefixRowsAt(rows[..|rows| - 1], prefix, k);
    }
  }

  lemma {:induction false} PrefixedUpToAt(s: Snap, prefix: string, i: nat, j: nat)
    requires s.Present? && j < i <= |s.children|
    ensures PrefixedUpTo(s, prefix, i)[j] == Prefixed(s.children[j], prefix)
    decreases i
  {
    if j < i - 1 {
      PrefixedUpToAt(s, prefix, i - 1, j);
    }
  }

  /** The output fragments of every test of `s`, in walk order: a node's own,
      then each child's. */
  function Outputs(s: Snap): string
    decreases s, if s.Present? then |s.children| + 1 else 0
  {
    match s
    case Missing => ""
    case Present(v, cs) => Concat(v.output) + OutputsUpTo(s, |cs|)
  }

  function OutputsUpTo(s: Snap, i: nat): string
    requires s.Present? && i <= |s.children|
    decreases s, i
  {
    if i == 0 then "" else OutputsUpTo(s, i - 1) + Outputs(s.children[i - 1])
  }

  /** What a walk appends to the buffer is exactly the outputs it leaves in
      the tests, in walk order: each fragment is written as it is stored. */
  lemma {:induction false} WrittenIsOutputs(s: Snap, prefix: string)
    ensures Written(s, prefix) == Outputs(Prefixed(s, prefix))
    decreases s, if s.Present? then |s.children| + 1 else 0
  {
    if s.Present? {
      WrittenUpToIsOutputs(s, Prefixed(s, prefix).value, prefix + Indent, |s.children|);
    }
  }

  lemma {:induction false} WrittenUpToIsOutputs(s: Snap, v: TestValue, prefix: string, i: nat)
    requires s.Present? && i <= |s.children|
    ensures OutputsUpTo(Present(v, PrefixedUpTo(s, prefix, |s.children|)), i) == WrittenUpTo(s, prefix, i)
    decreases s, i
  {
    if i > 0 {
      WrittenUpToIsOutputs(s, v, prefix, i - 1);
      PrefixedUpToAt(s, prefix, |s.children|, i - 1);
      WrittenIsOutputs(s.children[i - 1], prefix);
    }
  }

  /** A walk started with no prefix changes no test but their outputs: a
      node `depth` levels down has each result row of its output shifted by
      `depth` units, its other rows untouched, and its children handled one
      level further down. */
  lemma PrefixedAtDepth(s: Snap, depth: nat)
    requires s.Present?
    ensures Prefixed(s, Units(depth)).Present?
    ensures Prefixed(s, Units(depth)).value.(output := []) == s.value.(output := [])
    ensures |Prefixed(s, Units(depth)).children| == |s.children|
    ensures forall j | 0 <= j < |s.children| ::
      Prefixed(s, Units(depth)).children[j] == Prefixed(s.children[j], Units(depth + 1))
    ensures |Prefixed(s, Units(depth)).value.output| == |s.value.output|
    ensures forall k | 0 <= k < |s.value.output| ::
      var row, out := s.value.output[k], Prefixed(s, Units(depth)).value.output[k];
      IsResultRow(out) == IsResultRow(row) &&
      (IsResultRow(row) ==> IndentOf(out) == depth + IndentOf(row)) &&
      (!IsResultRow(row) ==> out == row)
  {
    PrefixAtDepth(depth);
    var r := Prefixed(s, Units(depth));
    assert r.children == PrefixedUpTo(s, Units(depth + 1), |s.children|);
    forall j | 0 <= j < |s.children|
      ensures r.children[j] == Prefixed(s.children[j], Units(depth + 1))
    {
      PrefixedUpToAt(s, Units(depth + 1), |s.children|, j);
    }
    forall k | 0 <= k < |s.value.output|
      ensures var row, out := s.value.output[k], r.value.output[k];
        IsResultRow(out) == IsResultRow(row) &&
        (IsResultRow(row) ==> IndentOf(out) == depth + IndentOf(row)) &&
        (!IsResultRow(row) ==> out == row)
    {
      PrefixRowsAt(s.value.output, Units(depth), k);
      PrefixRowAtDepth(s.value.output[k], depth);
    }
  }

  /** `Reader.walk` */
  method Walk(node: Tree, p: PrefixLog) returns (tc: NestedTest, ok: bool)
    requires Owned(node)
    modifies p`prefix, p.buf`data, Tests(node)`output
    ensures p.prefix == old(p.prefix)
    ensures p.buf.data == old(p.buf.data) + Written(old(SnapOf(node)), old(p.prefix))
    ensures SnapOf(node) == Prefixed(old(SnapOf(node)), old(p.prefix))
    ensures ok == node.Node?
    ensures ok ==> WalkedAs(old(SnapOf(node)), p.prefix, Tail(p.buf.data, p.pos), tc)
    decreases node, 3
  {
    if node.Nil? {
      return NoTest, false;
    }
    ghost var s := SnapOf(node);
    var v := node.value;
    Allocated(node);
    assert v !in TestsUpTo(node, |node.children|);
    ghost var before, status := p.buf.data, v.status;
    EmitOwnOutput(v, p);
    assert s.children == SnapsUpTo(node, |node.children|);
    ghost var own := v.output;
    assert v.status == status;
    var children, log := WalkBelow(node, p, s);
    assert v.output == own && v.status == status;
    NodePrefixed(node, s, p.prefix);
    AppendAssoc(before, Concat(PrefixRows(s.value.output, p.prefix)), WrittenUpTo(s, p.prefix + Indent, |node.children|));
    tc := NestedTest(ValueOf(v), children, log);
    ok := true;
  }

  /** `reader.go` lines 132-204: one more unit of prefix while the children are walked,
      then the node's log built from what the walk wrote since its context
      began; the deferred `decrPrefix` restores the prefix. */
  method WalkBelow(node: Tree, p: PrefixLog, ghost s: Snap) returns (children: seq<NestedTest>, log: string)
    requires node.Node? && Owned(node)
    requires s.Present? && s.children == SnapsUpTo(node, |node.children|)
    modifies p`prefix, p.buf`data, TestsUpTo(node, |node.children|)`output
    ensures p.prefix == old(p.prefix)
    ensures p.buf.data == old(p.buf.data) + WrittenUpTo(s, old(p.prefix) + Indent, |node.children|)
    ensures SnapsUpTo(node, |node.children|) == PrefixedUpTo(s, old(p.prefix) + Indent, |node.children|)
    ensures ChildrenWalked(s, old(p.prefix) + Indent, |node.children|, children)
    ensures IsLogOf(Tail(p.buf.data, p.pos), log)
    decreases node, 2
  {
    UpToAllocated(node, |node.children|);
    p.IncrPrefix();
    SiblingsAtStart(node, s, p.prefix);
    children := WalkChildren(node, p, s);
    SnapsPrefixed(node, s, p.prefix, |node.children|);
    ghost var data := p.buf.data;
    label walked:
    log := NodeLog(Tail(p.buf.data, p.pos));
    p.DecrPrefix();
    IncrThenDecr(old(p.prefix));
    SnapsKept@walked(node);
    assert p.buf.data == data;
  }

  /** The children's snapshots survive steps that touch no test. */
  twostate lemma SnapsKept(node: Tree)
    requires node.Node?
    requires forall x | x in TestsUpTo(node, |node.children|) :: old(allocated(x))
    requires unchanged(TestsUpTo(node, |node.children|))
    ensures SnapsUpTo(node, |node.children|) == old(SnapsUpTo(node, |node.children|))
  {
    SnapsUnchanged(node, |node.children|);
  }

  /** A node whose own result rows and whose children have been prefixed is
      the prefixed snapshot. */
  lemma NodePrefixed(node: Tree, s: Snap, prefix: string)
    requires node.Node? && s.Present? && |s.children| == |node.children|
    requires s.value == TestValue(node.value.name, node.value.package, s.value.output, node.value.status)
    requires node.value.output == PrefixRows(s.value.output, prefix)
    requires SnapsUpTo(node, |node.children|) == PrefixedUpTo(s, prefix + Indent, |node.children|)
    ensures SnapOf(node) == Prefixed(s, prefix)
  {
  }

  /** `reader.go` lines 139-143: each child walked in order with a copy of the context,
      the ok results kept. `s` is the snapshot of `node` taken when its walk
      began. */
  method WalkChildren(node: Tree, p: PrefixLog, ghost s: Snap) returns (children: seq<NestedTest>)
    requires node.Node? && Owned(node)
    requires s.Present? && |s.children| == |node.children|
    requires WalkedUpTo(node, s, p.prefix, 0, [])
    modifies p.buf`data, TestsUpTo(node, |node.children|)`output
    ensures p.buf.data == old(p.buf.data) + WrittenUpTo(s, p.prefix, |node.children|)
    ensures WalkedUpTo(node, s, p.prefix, |node.children|, children)
    decreases node, 1
  {
    var cs := node.children;
    children := [];
    var i := 0;
    while i < |cs|
      invariant 0 <= i <= |cs|
      invariant p.buf.data == old(p.buf.data) + WrittenUpTo(s, p.prefix, i)
      invariant WalkedUpTo(node, s, p.prefix, i, children)
    {
      OwnedChild(node, i, |cs|);
      children := WalkChild(node, i, p, s, children, old(p.buf.data));
      i := i + 1;
    }
  }

  /** After `i` children: `rs` are the ok walks of the first `i` and the
      children's snapshots are as `SiblingsAt` says. */
  ghost predicate WalkedUpTo(node: Tree, s: Snap, prefix: string, i: nat, rs: seq<NestedTest>)
    requires node.Node? && s.Present? && |s.children| == |node.children| && i <= |node.children|
    reads TestsUpTo(node, |node.children|)`output, TestsUpTo(node, |node.children|)`status
  {
    ChildrenWalked(s, prefix, i, rs) && SiblingsAt(node, s, prefix, i)
  }

  /** After `i` children: each child's snapshot is its original one,
      prefixed when it has been walked. */
  ghost predicate SiblingsAt(node: Tree, s: Snap, prefix: string, i: nat)
    requires node.Node? && s.Present? && |s.children| == |node.children|
    reads TestsUpTo(node, |node.children|)`output, TestsUpTo(node, |node.children|)`status
  {
    (forall j {:trigger Tests(node.children[j])} | 0 <= j < |node.children| ::
      Tests(node.children[j]) <= TestsUpTo(node, |node.children|)) &&
    (forall j {:trigger SnapOf(node.children[j])} | 0 <= j < |node.children| ::
      SnapOf(node.children[j]) == if j < i then Prefixed(s.children[j], prefix) else s.children[j])
  }

  lemma SiblingsAtStart(node: Tree, s: Snap, prefix: string)
    requires node.Node? && s.Present? && s.children == SnapsUpTo(node, |node.children|)
    ensures SiblingsAt(node, s, prefix, 0)
  {
    SnapsUpToAt(node, |node.children|);
    TestsUpToGrows(node, 0, |node.children|);
  }

  lemma {:induction false} SnapsPrefixed(node: Tree, s: Snap, prefix: string, k: nat)
    requires node.Node? && s.Present? && |s.children| == |node.children|
    requires k <= |node.children|
    requires SiblingsAt(node, s, prefix, |node.children|)
    ensures SnapsUpTo(node, k) == PrefixedUpTo(s, prefix, k)
    decreases k
  {
    if k > 0 {
      SnapsPrefixed(node, s, prefix, k - 1);
    }
  }

  /** One turn of the loop of `reader.go` lines 139-143: child `i` walked with a copy
      of the context, its result appended when ok. The children before it
      stay walked and the ones after it untouched. */
  method WalkChild(node: Tree, i: nat, p: PrefixLog, ghost s: Snap, children: seq<NestedTest>, ghost start: string)
    returns (result: seq<NestedTest>)
    requires node.Node? && Owned(node) && i < |node.children|
    requires s.Present? && |s.children| == |node.children|
    requires WalkedUpTo(node, s, p.prefix, i, children)
    requires p.buf.data == start + WrittenUpTo(s, p.prefix, i)
    modifies p.buf`data, Tests(node.children[i])`output
    ensures p.buf.data == start + WrittenUpTo(s, p.prefix, i + 1)
    ensures WalkedUpTo(node, s, p.prefix, i + 1, result)
    decreases node, 0
  {
    OwnedChild(node, i, |node.children|);
    UpToAllocated(node, |node.children|);
    var q := p.Copy();
    assert SiblingsAt(node, s, p.prefix, i);
    label before:
    var child, childOk := Walk(node.children[i], q);
    SiblingsStep@before(node, s, p.prefix, i);
    assert Tail(p.buf.data, q.pos) == Written(s.children[i], p.prefix);
    AppendAssoc(start, WrittenUpTo(s, p.prefix, i), Written(s.children[i], p.prefix));
    result := children;
    if childOk {
      result := children + [child];
      assert result[..|result| - 1] == children;
    }
  }

  /** Walking child `i` alone moves the siblings from `i` to `i + 1`. */
  twostate lemma SiblingsStep(node: Tree, new s: Snap, new prefix: string, new i: nat)
    requires node.Node? && Owned(node) && i < |node.children|
    requires s.Present? && |s.children| == |node.children|
    requires forall x | x in TestsUpTo(node, |node.children|) :: old(allocated(x))
    requires old(SiblingsAt(node, s, prefix, i))
    requires forall x | x in TestsUpTo(node, |node.children|) && x !in Tests(node.children[i]) ::
      x.output == old(x.output) && x.status == old(x.status)
    requires SnapOf(node.children[i]) == Prefixed(s.children[i], prefix)
    ensures SiblingsAt(node, s, prefix, i + 1)
  {
    SiblingsUnchanged(node, i, |node.children|);
  }

  /** The children other than `i` keep their snapshots. */
  twostate lemma {:induction false} SiblingsUnchanged(node: Tree, new i: nat, new n: nat)
    requires node.Node? && Owned(node) && i < |node.children| && n <= |node.children|
    requires forall x | x in TestsUpTo(node, |node.children|) :: old(allocated(x))
    requires forall x | x in TestsUpTo(node, |node.children|) && x !in Tests(node.children[i]) ::
      x.output == old(x.output) && x.status == old(x.status)
    ensures forall j | 0 <= j < n && j != i :: SnapOf(node.children[j]) == old(SnapOf(node.children[j]))
    decreases n
  {
    if n > 0 {
      SiblingsUnchanged(node, i, n - 1);
      if n - 1 != i {
        ChildrenDisjoint(node, i, n - 1);
        SnapUnchanged(node.children[n - 1]);
      }
    }
  }

  /** Two different children have no test in common. */
  lemma ChildrenDisjoint(t: Tree, a: nat, b: nat)
    requires t.Node? && Owned(t) && a < |t.children| && b < |t.children| && a != b
    ensures Tests(t.children[a]) !! Tests(t.children[b])
    ensures Tests(t.children[b]) <= TestsUpTo(t, |t.children|)
  {
    var lo, hi := if a < b then a else b, if a < b then b else a;
    OwnedChild(t, hi, |t.children|);
    OwnedChild(t, b, |t.children|);
    TestsUpToGrows(t, lo, hi);
  }
}
