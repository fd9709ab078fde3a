/** How the walk turns the text one node wrote into that node's log: classify
    lines as result rows, split the text into lines, pull the result rows out
    with a backward scan, sort them by depth and strip the common indentation. */
module Rows {
  import opened GoStrings

  /** The action names of `go test -json` events, as the lower-case words the
      event stream carries; their declarations are not part of this model. */
  const ActionFail: string := "fail"
  const ActionPass: string := "pass"
  const ActionSkip: string := "skip"

  /** Upper-cased, the action names are the verdict tokens of a result row. */
  lemma ActionTokens()
    ensures ToUpper(ActionFail) == "FAIL" && ToUpper(ActionPass) == "PASS" && ToUpper(ActionSkip) == "SKIP"
  {
    FailToken();
    PassToken();
    SkipToken();
  }

  lemma FailToken()
    ensures ToUpper(ActionFail) == "FAIL"
  {
    UpperOf(ActionFail, "FAIL");
  }

  lemma PassToken()
    ensures ToUpper(ActionPass) == "PASS"
  {
    UpperOf(ActionPass, "PASS");
  }

  lemma SkipToken()
    ensures ToUpper(ActionSkip) == "SKIP"
  {
    UpperOf(ActionSkip, "SKIP");
  }

  /** `1<<31 - 1`, the starting value of the minimum indentation. */
  const MaxInt32: nat := 0x7fff_ffff

  /** `isResultActionRow`: the row holds "---" and an upper-cased verdict
      somewhere, in any order and at any position. */
  predicate IsResultRow(s: string)
  {
    Contains(s, "---") &&
    (Contains(s, ToUpper(ActionFail)) || Contains(s, ToUpper(ActionPass)) || Contains(s, ToUpper(ActionSkip)))
  }

  lemma IsResultRowIff(s: string)
    ensures IsResultRow(s) <==>
      (exists i :: OccursAt(s, "---", i)) &&
      ((exists i :: OccursAt(s, "FAIL", i)) || (exists i :: OccursAt(s, "PASS", i)) ||
       (exists i :: OccursAt(s, "SKIP", i)))
  {
    ActionTokens();
    ContainsIff(s, "---");
    ContainsIff(s, "FAIL");
    ContainsIff(s, "PASS");
    ContainsIff(s, "SKIP");
  }

  /** The number of indentation units a row holds, anywhere in it. */
  function IndentOf(s: string): nat
  {
    Count(s, Indent)
  }

  /** `slice.Map(pieces, func(t) { return string(t) + "\n" })` */
  function AddNewlines(pieces: seq<string>): (r: seq<string>)
    ensures |r| == |pieces|
  {
    if pieces == [] then [] else [pieces[0] + "\n"] + AddNewlines(pieces[1..])
  }

  /** The last line loses its newline again (`strings.TrimSuffix`). */
  function TrimLastNewline(lines: seq<string>): (r: seq<string>)
    requires |lines| >= 1
    ensures |r| == |lines|
  {
    lines[|lines| - 1 := TrimSuffix(lines[|lines| - 1], "\n")]
  }

  /** The lines of `buf[pos:]` as the walk sees them. */
  function Lines(text: string): seq<string>
  {
    TrimLastNewline(AddNewlines(Split(text)))
  }

  lemma {:induction false} RejoinPieces(r: seq<string>)
    requires |r| >= 1
    ensures Concat(TrimLastNewline(AddNewlines(r))) == Join(r)
  {
    if |r| == 1 {
      TrimSuffixUndoesAppend(r[0], "\n");
      assert TrimLastNewline(AddNewlines(r)) == [r[0]];
    } else {
      RejoinPieces(r[1..]);
      var tail := TrimLastNewline(AddNewlines(r[1..]));
      assert TrimLastNewline(AddNewlines(r)) == [r[0] + "\n"] + tail;
      assert ([r[0] + "\n"] + tail)[1..] == tail;
    }
  }

  /** Splitting, re-terminating and trimming loses nothing: the lines are
      never empty as a list and concatenate back to the text exactly. */
  lemma LinesRejoin(text: string)
    ensures |Lines(text)| >= 1
    ensures Concat(Lines(text)) == text
  {
    RejoinPieces(Split(text));
    JoinSplit(text);
  }

  /** The lines `stringsSlice` keeps, in order. */
  function NonResultRows(lines: seq<string>): seq<string>
  {
    if lines == [] then []
    else if IsResultRow(lines[0]) then NonResultRows(lines[1..])
    else [lines[0]] + NonResultRows(lines[1..])
  }

  /** The result rows, in order. */
  function ResultRows(lines: seq<string>): seq<string>
  {
    if lines == [] then []
    else if IsResultRow(lines[0]) then [lines[0]] + ResultRows(lines[1..])
    else ResultRows(lines[1..])
  }

  /** The two filters split the lines: every line goes to exactly one side,
      the first side holds no result row and the second only result rows. */
  lemma Partition(lines: seq<string>)
    ensures |NonResultRows(lines)| + |ResultRows(lines)| == |lines|
    ensures multiset(NonResultRows(lines)) + multiset(ResultRows(lines)) == multiset(lines)
    ensures forall k :: 0 <= k < |NonResultRows(lines)| ==> !IsResultRow(NonResultRows(lines)[k])
    ensures forall k :: 0 <= k < |ResultRows(lines)| ==> IsResultRow(ResultRows(lines)[k])
  {
    PartitionCounts(lines);
    NonResultRowsClean(lines);
    ResultRowsOnly(lines);
  }

  lemma {:induction false} PartitionCounts(lines: seq<string>)
    ensures |NonResultRows(lines)| + |ResultRows(lines)| == |lines|
    ensures multiset(NonResultRows(lines)) + multiset(ResultRows(lines)) == multiset(lines)
  {
    if lines != [] {
      PartitionCounts(lines[1..]);
      assert lines == [lines[0]] + lines[1..];
    }
  }

  lemma {:induction false} NonResultRowsClean(lines: seq<string>)
    ensures forall k :: 0 <= k < |NonResultRows(lines)| ==> !IsResultRow(NonResultRows(lines)[k])
  {
    if lines != [] {
      NonResultRowsClean(lines[1..]);
    }
  }

  lemma {:induction false} ResultRowsOnly(lines: seq<string>)
    ensures forall k :: 0 <= k < |ResultRows(lines)| ==> IsResultRow(ResultRows(lines)[k])
  {
    if lines != [] {
      ResultRowsOnly(lines[1..]);
    }
  }

  lemma {:induction false} NoResultRowsKeepsAll(lines: seq<string>)
    requires ResultRows(lines) == []
    ensures NonResultRows(lines) == lines
  {
    if lines != [] {
      NoResultRowsKeepsAll(lines[1..]);
      assert lines == [lines[0]] + lines[1..];
    }
  }

  function Reverse(s: seq<string>): seq<string>
  {
    if s == [] then [] else Reverse(s[1..]) + [s[0]]
  }

  lemma {:induction false} ReverseMultiset(s: seq<string>)
    ensures multiset(Reverse(s)) == multiset(s)
  {
    if s != [] {
      ReverseMultiset(s[1..]);
      assert s == [s[0]] + s[1..];
    }
  }

  /** `mx` after the scan: the least indentation among `rows`, capped at
      `1<<31 - 1`, which is also its value when there are no rows. */
  function MinIndent(rows: seq<string>): nat
  {
    if rows == [] then MaxInt32 else Min(IndentOf(rows[0]), MinIndent(rows[1..]))
  }

  lemma {:induction false} MinIndentIsMinimum(rows: seq<string>)
    ensures MinIndent(rows) <= MaxInt32
    ensures forall k :: 0 <= k < |rows| ==> MinIndent(rows) <= IndentOf(rows[k])
    ensures MinIndent(rows) == MaxInt32 || exists k :: 0 <= k < |rows| && IndentOf(rows[k]) == MinIndent(rows)
  {
    if rows != [] {
      MinIndentIsMinimum(rows[1..]);
      if MinIndent(rows) != MaxInt32 && MinIndent(rows) != IndentOf(rows[0]) {
        var k :| 0 <= k < |rows[1..]| && IndentOf(rows[1..][k]) == MinIndent(rows[1..]);
        assert IndentOf(rows[k + 1]) == MinIndent(rows);
      }
    }
  }

  /** Rows in non-decreasing order of indentation; nothing is said about
      the order of rows with equal indentation. */
  ghost predicate SortedByIndent(s: seq<string>)
  {
    SortedBy(s, IndentOf)
  }

  ghost predicate SortedBy(s: seq<string>, key: string -> nat)
  {
    forall i, j :: 0 <= i < j < |s| ==> key(s[i]) <= key(s[j])
  }

  /** Every row with its first `n` indentation units removed. */
  function StripRows(rows: seq<string>, n: nat): (r: seq<string>)
    ensures |r| == |rows|
  {
    if rows == [] then [] else [Replace(rows[0], Indent, n)] + StripRows(rows[1..], n)
  }

  lemma {:induction false} StripRowsAt(rows: seq<string>, n: nat, k: nat)
    requires k < |rows|
    ensures StripRows(rows, n)[k] == Replace(rows[k], Indent, n)
  {
    if k > 0 {
      StripRowsAt(rows[1..], n, k - 1);
    }
  }

  lemma {:induction false} StripRowsAppend(a: seq<string>, b: seq<string>, n: nat)
    ensures StripRows(a + b, n) == StripRows(a, n) + StripRows(b, n)
  {
    if a != [] {
      assert (a + b)[1..] == a[1..] + b;
      StripRowsAppend(a[1..], b, n);
    } else {
      assert a + b == b;
    }
  }

  /** The log of a node whose lines since its start position are `text`:
      the narrative lines in order, then the result rows in some order that
      is non-decreasing by indentation, every line stripped of as many
      indentation units as the shallowest result row has. */
  ghost predicate IsLogOf(text: string, log: string)
  {
    var lines := Lines(text);
    var results := ResultRows(lines);
    exists m :: IsDepthOrder(m, results) &&
      log == Concat(StripRows(NonResultRows(lines) + m, MinIndent(results)))
  }

  /** `m` is `results` rearranged so that shallower rows come first. */
  ghost predicate IsDepthOrder(m: seq<string>, results: seq<string>)
  {
    multiset(m) == multiset(results) && SortedByIndent(m)
  }

  /** The backward scan of `reader.go` lines 178-188: removes each result row from the
      lines as it meets it, collects it, and keeps the least indentation. */
  method SplitResultRows(lines: seq<string>) returns (rest: seq<string>, mark: seq<string>, mx: nat)
    ensures rest == NonResultRows(lines)
    ensures mark == Reverse(ResultRows(lines))
    ensures mx == MinIndent(ResultRows(lines))
  {
    rest := lines;
    mark := [];
    mx := MaxInt32;
    var i := |lines| - 1;
    while i >= 0
      invariant -1 <= i < |lines|
      invariant rest == lines[..i + 1] + NonResultRows(lines[i + 1..])
      invariant mark == Reverse(ResultRows(lines[i + 1..]))
      invariant mx == MinIndent(ResultRows(lines[i + 1..]))
    {
      assert lines[i..][0] == lines[i] && lines[i..][1..] == lines[i + 1..];
      assert rest[i] == lines[i];
      if IsResultRow(rest[i]) {
        var cnt := IndentOf(rest[i]);
        if cnt < mx {
          mx := cnt;
        }
        mark := mark + [rest[i]];
        assert lines[..i + 1][..i] == lines[..i];
        rest := rest[..i] + rest[i + 1..];
      } else {
        assert lines[..i + 1] + NonResultRows(lines[i + 1..]) == lines[..i] + ([lines[i]] + NonResultRows(lines[i + 1..]));
      }
      i := i - 1;
    }
    assert lines[0..] == lines;
  }

  /** The first `i` elements are in order of `key`. */
  ghost predicate SortedPrefix(s: seq<string>, i: int, key: string -> nat)
  {
    forall x, y :: 0 <= x < y < i && y < |s| ==> key(s[x]) <= key(s[y])
  }

  /** `sort.Slice(mark, less)` with `less` comparing `key`. The sort is not
      stable; this insertion sort is, but only what `sort.Slice` promises is
      stated: a permutation in non-decreasing key order. */
  method SortBy(a: array<string>, key: string -> nat)
    modifies a
    ensures multiset(a[..]) == old(multiset(a[..]))
    ensures SortedBy(a[..], key)
  {
    var i := 0;
    while i < a.Length
      invariant 0 <= i <= a.Length
      invariant SortedPrefix(a[..], i, key)
      invariant multiset(a[..]) == old(multiset(a[..]))
    {
      InsertDown(a, i, key);
      i := i + 1;
    }
  }

  /** Moves `a[i]` down into the sorted prefix `a[..i]`. */
  method InsertDown(a: array<string>, i: nat, key: string -> nat)
    requires i < a.Length
    requires SortedPrefix(a[..], i, key)
    modifies a
    ensures SortedPrefix(a[..], i + 1, key)
    ensures multiset(a[..]) == old(multiset(a[..]))
  {
    var j := i;
    while j > 0 && key(a[j - 1]) > key(a[j])
      invariant 0 <= j <= i
      invariant forall x, y :: 0 <= x < y <= i && x != j && y != j ==> key(a[x]) <= key(a[y])
      invariant forall y :: j < y <= i ==> key(a[j]) <= key(a[y])
      invariant multiset(a[..]) == old(multiset(a[..]))
    {
      Swap(a, j - 1, j);
      j := j - 1;
    }
  }

  method Swap(a: array<string>, i: nat, j: nat)
    requires i < j < a.Length
    modifies a
    ensures a[i] == old(a[j]) && a[j] == old(a[i])
    ensures forall k :: 0 <= k < a.Length && k != i && k != j ==> a[k] == old(a[k])
    ensures multiset(a[..]) == old(multiset(a[..]))
  {
    a[i], a[j] := a[j], a[i];
  }

  /** `reader.go` lines 191-196: `mark` copied into a slice and sorted by depth in place. */
  method SortMark(mark: seq<string>) returns (sorted: seq<string>)
    ensures multiset(sorted) == multiset(mark)
    ensures SortedByIndent(sorted)
  {
    var a := new string[|mark|](k requires 0 <= k < |mark| => mark[k]);
    assert a[..] == mark;
    SortBy(a, IndentOf);
    sorted := a[..];
  }

  /** The append loop of `reader.go` lines 199-202. */
  method Render(rows: seq<string>, mx: nat) returns (log: string)
    ensures log == Concat(StripRows(rows, mx))
  {
    log := [];
    for k := 0 to |rows|
      invariant log == Concat(StripRows(rows[..k], mx))
    {
      assert rows[..k + 1] == rows[..k] + [rows[k]];
      StripRowsAppend(rows[..k], [rows[k]], mx);
      assert StripRows([rows[k]], mx) == [Replace(rows[k], Indent, mx)];
      ConcatAppend(StripRows(rows[..k], mx), [Replace(rows[k], Indent, mx)]);
      log := log + Replace(rows[k], Indent, mx);
    }
    assert rows[..|rows|] == rows;
  }

  /** `reader.go` lines 158-204 of the walk: from the text a node's subtree wrote to
      that node's log. */
  method NodeLog(text: string) returns (log: string)
    ensures IsLogOf(text, log)
  {
    ghost var lines := Lines(text);
    ghost var results := ResultRows(lines);
    var strs := TrimLastNewline(AddNewlines(Split(text)));
    var rest, mark, mx := SplitResultRows(strs);
    var sorted := SortMark(mark);
    ReverseMultiset(results);
    assert IsDepthOrder(sorted, results);
    log := Render(rest + sorted, mx);
    LogWitness(text, sorted, log);
  }

  /** A depth order of the result rows and the log it renders to witness
      `IsLogOf`. */
  lemma LogWitness(text: string, m: seq<string>, log: string)
    requires IsDepthOrder(m, ResultRows(Lines(text)))
    requires log == Concat(StripRows(NonResultRows(Lines(text)) + m, MinIndent(ResultRows(Lines(text)))))
    ensures IsLogOf(text, log)
  {
  }

  /** With no result row, `mx` keeps its starting value and every
      indentation unit in every line is removed. */
  lemma NoResultRowsStripsAll(text: string, log: string)
    requires IsLogOf(text, log)
    requires ResultRows(Lines(text)) == []
    requires |text| <= MaxInt32
    ensures log == Concat(StripRows(Lines(text), MaxInt32))
    ensures forall k :: 0 <= k < |Lines(text)| ==> IndentOf(StripRows(Lines(text), MaxInt32)[k]) == 0
  {
    var lines := Lines(text);
    var m :| IsDepthOrder(m, []) &&
      log == Concat(StripRows(NonResultRows(lines) + m, MinIndent([])));
    assert |multiset(m)| == 0;
    assert m == [];
    NoResultRowsKeepsAll(lines);
    assert NonResultRows(lines) + m == lines;
    LinesRejoin(text);
    forall k | 0 <= k < |lines|
      ensures IndentOf(StripRows(lines, MaxInt32)[k]) == 0
    {
      ConcatPieceLength(lines, k);
      CountAtMostLength(lines[k], Indent);
      StripRowsAt(lines, MaxInt32, k);
      StripAllUnits(lines[k], MaxInt32);
    }
  }

  /** With result rows, `mx` is the indentation of the shallowest one, so
      after stripping it has none, the rows keep their depth order, and every
      row loses exactly `mx` units. */
  lemma ResultRowsNormalized(text: string, log: string)
    requires IsLogOf(text, log)
    requires ResultRows(Lines(text)) != []
    requires |text| <= MaxInt32
    ensures var lines := Lines(text);
      var results := ResultRows(lines);
      var mx := MinIndent(results);
      exists m :: IsDepthOrder(m, results) &&
        log == Concat(StripRows(NonResultRows(lines), mx)) + Concat(StripRows(m, mx)) &&
        IndentOf(m[0]) == mx &&
        IndentOf(StripRows(m, mx)[0]) == 0 &&
        SortedByIndent(StripRows(m, mx)) &&
        forall k :: 0 <= k < |m| ==> IndentOf(StripRows(m, mx)[k]) == IndentOf(m[k]) - mx
  {
    var lines := Lines(text);
    var results := ResultRows(lines);
    var mx := MinIndent(results);
    var m :| IsDepthOrder(m, results) && log == Concat(StripRows(NonResultRows(lines) + m, mx));
    ResultRowsBounded(text);
    NormalizedBy(m, NonResultRows(lines), results, log);
  }

  /** `ResultRowsNormalized` for one depth order `m` of the result rows. */
  lemma NormalizedBy(m: seq<string>, rest: seq<string>, results: seq<string>, log: string)
    requires IsDepthOrder(m, results) && results != []
    requires forall k :: 0 <= k < |results| ==> IndentOf(results[k]) <= MaxInt32
    requires log == Concat(StripRows(rest + m, MinIndent(results)))
    ensures var mx := MinIndent(results);
      log == Concat(StripRows(rest, mx)) + Concat(StripRows(m, mx)) &&
      IndentOf(m[0]) == mx &&
      IndentOf(StripRows(m, mx)[0]) == 0 &&
      SortedByIndent(StripRows(m, mx)) &&
      forall k :: 0 <= k < |m| ==> IndentOf(StripRows(m, mx)[k]) == IndentOf(m[k]) - mx
  {
    var mx := MinIndent(results);
    StripRowsAppend(rest, m, mx);
    ConcatAppend(StripRows(rest, mx), StripRows(m, mx));
    HeadIsMinimum(m, results);
    StripSorted(m, mx);
  }

  /** No line of a text within the 32-bit range holds more units than `mx` can. */
  lemma ResultRowsBounded(text: string)
    requires |text| <= MaxInt32
    ensures forall k :: 0 <= k < |ResultRows(Lines(text))| ==> IndentOf(ResultRows(Lines(text))[k]) <= MaxInt32
  {
    var lines := Lines(text);
    LinesRejoin(text);
    forall j | 0 <= j < |ResultRows(lines)|
      ensures IndentOf(ResultRows(lines)[j]) <= MaxInt32
    {
      ResultRowIsLine(lines, j);
      var q :| 0 <= q < |lines| && lines[q] == ResultRows(lines)[j];
      ConcatPieceLength(lines, q);
      CountAtMostLength(lines[q], Indent);
    }
  }

  /** The head of a depth order is a shallowest row, and its depth is `mx`. */
  lemma HeadIsMinimum(m: seq<string>, results: seq<string>)
    requires IsDepthOrder(m, results)
    requires results != []
    requires forall k :: 0 <= k < |results| ==> IndentOf(results[k]) <= MaxInt32
    ensures |m| > 0 && MinIndent(results) == IndentOf(m[0])
  {
    var mx := MinIndent(results);
    assert |m| > 0 by {
      assert |multiset(results)| > 0;
    }
    assert m[0] in multiset(results);
    var j :| 0 <= j < |results| && results[j] == m[0];
    MinIndentIsMinimum(results);
    assert mx <= IndentOf(results[j]);
    if mx != MaxInt32 {
      var k :| 0 <= k < |results| && IndentOf(results[k]) == mx;
      assert results[k] in multiset(m);
      var q :| 0 <= q < |m| && m[q] == results[k];
      if q > 0 {
        assert IndentOf(m[0]) <= IndentOf(m[q]);
      }
    }
  }

  /** Stripping `mx` units, with `mx` at most every row's depth, lowers each depth by `mx` and so
      keeps the order. */
  lemma StripSorted(m: seq<string>, mx: nat)
    requires SortedByIndent(m)
    requires forall k :: 0 <= k < |m| ==> mx <= IndentOf(m[k])
    ensures SortedByIndent(StripRows(m, mx))
    ensures forall k :: 0 <= k < |m| ==> IndentOf(StripRows(m, mx)[k]) == IndentOf(m[k]) - mx
  {
    var s := StripRows(m, mx);
    forall k | 0 <= k < |m|
      ensures IndentOf(s[k]) == IndentOf(m[k]) - mx
    {
      StripRowsAt(m, mx, k);
      CountAfterReplace(m[k], mx);
    }
    assert forall i, j :: 0 <= i < j < |s| ==> IndentOf(m[i]) <= IndentOf(m[j]);
  }

  /** Each result row is one of the lines. */
  lemma {:induction false} ResultRowIsLine(lines: seq<string>, j: nat)
    requires j < |ResultRows(lines)|
    ensures exists q :: 0 <= q < |lines| && lines[q] == ResultRows(lines)[j]
  {
    if IsResultRow(lines[0]) {
      if j > 0 {
        ResultRowIsLine(lines[1..], j - 1);
        var q :| 0 <= q < |lines[1..]| && lines[1..][q] == ResultRows(lines[1..])[j - 1];
        assert lines[q + 1] == ResultRows(lines)[j];
      } else {
        assert lines[0] == ResultRows(lines)[0];
      }
    } else {
      ResultRowIsLine(lines[1..], j);
      var q :| 0 <= q < |lines[1..]| && lines[1..][q] == ResultRows(lines[1..])[j];
      assert lines[q + 1] == ResultRows(lines)[j];
    }
  }
}
