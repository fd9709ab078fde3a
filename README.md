# go-allure `gotest` reader, modelled in Dafny

The gotest reader in go-allure turns the event stream of `go test -json` into a tree of tests, and gives each
test its own log. It works in two phases.

- **Aggregation** (`Reader.ReadAll`). Every scanned line is decoded into an `Entry`. Each entry that names a test
  is folded into that test's record. The record is looked up by the key `Package + "/" + TestName`, and created
  and inserted into a trie on first sight.
- **Log reconstruction** (`Reader.walk`). Every top-level node is walked with a fresh `prefixLog` context: a buffer
  shared by the whole walk, an indentation prefix of four-space units, and a start position.
  - A node first appends its own output fragments to the buffer. Each result row (`--- PASS`/`FAIL`/`SKIP`) gets
    the current prefix first; this is written back into the test's own output slice.
  - The node then walks its children with copied contexts, each one indentation unit deeper.
  - Finally it re-reads everything written since its start position and splits it into lines. A backward scan pulls
    out the result rows and keeps the least indentation count `mx` among them. The result rows are sorted by their
    indentation count.
  - The node's log is then the non-result lines followed by the sorted result rows, each with its first `mx`
    indentation units removed.

The model has five modules:

- `GoStrings` (strings.dfy) defines the parts of `strings` and `bytes` that the reader uses:
  - `Contains`, `Count` and `Replace` as left-to-right scans that find non-overlapping occurrences anywhere in the
    text;
  - `TrimSuffix`, `bytes.Split` on `'\n'`, and ASCII `ToUpper`.
- `Rows` (rows.dfy) holds the pure line logic and the imperative steps of the log construction:
  - the pure logic: `isResultActionRow`, the split and re-join, and the specification `IsLogOf` of a node's log;
  - the imperative steps: the backward scan, `sort.Slice` over an array, and the append loop.
- `Walk` (walk.dfy) holds the classes `LogBuffer` (`bytes.Buffer`), `Test` and `PrefixLog`, the tree datatype, and
  the recursive walk.
  - Value snapshots (`Snap`) of a tree's tests state what a walk writes (`Written`) and what it leaves in the tests'
    outputs (`Prefixed`).
  - The walk's contract ties the shared buffer, the in-place prefixing and the returned `NestedTest` to these
    functions of the tree as it was before the walk.
- `Trie` (trie.dfy) holds the keyed trie that `find` and `insert` maintain.
- `Reader` (reader.dfy) holds the fold loop of `ReadAll` over already-decoded lines, and the top-level walk loop.

## Model

| member | source | states |
|---|---|---|
| GoStrings.Contains | internal/gotest/reader.go:111-114 | defines `strings.Contains` as a scan from the left that tries every start; `GoStrings.ContainsIff` states what it finds |
| GoStrings.ContainsIff | internal/gotest/reader.go:111-114 | `strings.Contains` holds exactly when the pattern occurs at some index of the text |
| GoStrings.TrimSuffix | internal/gotest/reader.go:167 | one copy of the suffix is dropped when it is there: what is left plus the suffix is the original, otherwise the text is unchanged |
| GoStrings.TrimSuffixUndoesAppend | internal/gotest/reader.go:229-235 | trimming a suffix just appended gives the text back |
| GoStrings.Split | internal/gotest/reader.go:160 | `bytes.Split` on `'\n'` gives at least one piece, and no piece holds a newline |
| GoStrings.JoinSplit | internal/gotest/reader.go:160 | joining the pieces of a split with newlines gives the text back |
| GoStrings.SplitJoin | internal/gotest/reader.go:160 | splitting newline-free pieces joined with newlines gives the pieces back |
| GoStrings.Count | internal/gotest/reader.go:180 | defines `strings.Count` (also used at line 193) as a left-to-right scan that counts occurrences without overlap; `GoStrings.CountAtMostLength`, `GoStrings.CountAfterUnits` and `GoStrings.CountAfterReplace` state its properties |
| GoStrings.CountAtMostLength | internal/gotest/reader.go:180 | `strings.Count` finds no more occurrences than the text has characters |
| GoStrings.Replace | internal/gotest/reader.go:201 | defines `strings.Replace(s, p, "", n)` as removing the first `n` occurrences found left to right without overlap; `GoStrings.ReplaceLength` and `GoStrings.CountAfterReplace` state what it removes |
| GoStrings.ReplaceLength | internal/gotest/reader.go:201 | `strings.Replace(s, unit, "", n)` shortens the text by exactly min(n, count) copies of the pattern |
| GoStrings.CountAfterReplace | internal/gotest/reader.go:201 | removing `n` indentation units leaves count minus min(n, count) units, because the pieces glued together never form a new unit |
| GoStrings.StripAllUnits | internal/gotest/reader.go:172-201 | removing at least as many units as a line holds leaves none |
| GoStrings.CountAfterUnits | internal/gotest/reader.go:124 | putting `d` units in front of a row raises its unit count by exactly `d` |
| GoStrings.Units | internal/gotest/reader.go:213-231 | `d` indentation units are `4*d` spaces |
| GoStrings.ToUpper | internal/gotest/reader.go:112-114 | upper-casing keeps the length, turns every lower-case ASCII letter into its upper-case letter, and leaves every other character as it is |
| GoStrings.UpperOf | internal/gotest/reader.go:112-114 | a string of the same length with exactly those letters upper-cased and the rest kept is the result of `ToUpper` |
| Rows.ActionTokens | internal/gotest/reader.go:112-114 | the action names `fail`, `pass` and `skip` upper-case to the row tokens `FAIL`, `PASS` and `SKIP` |
| Rows.IsResultRow | internal/gotest/reader.go:110-117 | defines `isResultActionRow` on the upper-cased action names; `Rows.IsResultRowIff` states its meaning |
| Rows.IsResultRowIff | internal/gotest/reader.go:110-117 | a row is a result row exactly when `---` occurs somewhere in it and `FAIL`, `PASS` or `SKIP` occurs somewhere in it |
| Rows.AddNewlines | internal/gotest/reader.go:159-163 | the `slice.Map` step: one piece out per piece in, each followed by `"\n"`; `Rows.RejoinPieces` states what the pieces join to |
| Rows.TrimLastNewline | internal/gotest/reader.go:166-167 | keeps the number of lines and trims `"\n"` from the last one only; `Rows.RejoinPieces` states the result |
| Rows.Lines | internal/gotest/reader.go:158-167 | defines the line split of `buf[pos:]` as split, re-terminate, trim the last; `Rows.LinesRejoin` states that the lines concatenate back to the text |
| Rows.LinesRejoin | internal/gotest/reader.go:158-167 | splitting `buf[pos:]`, adding `"\n"` to every piece and trimming it from the last gives at least one line, and the lines concatenate back to the text exactly |
| Rows.RejoinPieces | internal/gotest/reader.go:159-167 | re-terminating the pieces and trimming the last one concatenates to the pieces joined by newlines |
| Rows.Partition | internal/gotest/reader.go:178-188 | the kept lines and the result rows together have the original line count and the original lines as a multiset; the first side holds no result row and the second only result rows |
| Rows.NoResultRowsKeepsAll | internal/gotest/reader.go:178-188 | with no result row, the scan keeps every line in order |
| Rows.ReverseMultiset | internal/gotest/reader.go:185 | the result rows collected back to front are the result rows as a multiset |
| Rows.MinIndentIsMinimum | internal/gotest/reader.go:172-183 | `mx` is at most `1<<31 - 1` and at most every result row's count, and it is either `1<<31 - 1` or the count of some result row |
| Rows.SplitResultRows | internal/gotest/reader.go:171-188 | the backward scan leaves exactly the non-result lines in their order, collects exactly the result rows (back to front), and ends with `mx` the least count among them, or `1<<31 - 1` when there are none |
| Rows.SortBy | internal/gotest/reader.go:191-195 | the array ends as a permutation of what it held, non-decreasing by the key; rows with equal keys go in no promised order |
| Rows.InsertDown | internal/gotest/reader.go:191-195 | one more element moved into the sorted prefix keeps a permutation with a longer sorted prefix |
| Rows.Swap | internal/gotest/reader.go:191-195 | exchanging two elements keeps every other element and the multiset |
| Rows.SortMark | internal/gotest/reader.go:191-195 | the sorted `mark` is a permutation of the collected result rows and is non-decreasing by indentation count |
| Rows.Render | internal/gotest/reader.go:199-202 | the log is the concatenation of every row with its first `mx` units removed, in order |
| Rows.NodeLog | internal/gotest/reader.go:158-204 | the log of `buf[pos:]` is the non-result lines followed by some indentation order of the result rows, every line stripped of `mx` units |
| Rows.LogWitness | internal/gotest/reader.go:191-202 | any indentation order of the result rows, rendered, is a log of the text |
| Rows.NoResultRowsStripsAll | internal/gotest/reader.go:172-202 | with no result row the log is every line with up to `1<<31 - 1` units removed, and no line keeps a unit |
| Rows.ResultRowsNormalized | internal/gotest/reader.go:178-202 | with result rows the log is the stripped non-result lines followed by the stripped sorted result rows; the first result row is a shallowest one and ends with no unit, each result row loses exactly `mx` units, and the order is kept |
| Rows.NormalizedBy | internal/gotest/reader.go:191-202 | the same facts for one given indentation order of the result rows |
| Rows.ResultRowsBounded | internal/gotest/reader.go:172 | in a text within the 32-bit range no result row holds more units than the starting `mx` |
| Rows.HeadIsMinimum | internal/gotest/reader.go:178-195 | the first row of a sorted permutation of the result rows has count `mx` |
| Rows.StripSorted | internal/gotest/reader.go:199-202 | stripping `mx` units, where `mx` is at most every row's count, lowers each count by `mx` and keeps the order |
| Rows.ResultRowIsLine | internal/gotest/reader.go:178-188 | every collected result row is one of the lines |
| Walk.LogBuffer.constructor | internal/gotest/reader.go:210 | a new buffer is empty |
| Walk.LogBuffer.WriteString | internal/gotest/reader.go:126 | the buffer only grows: its new contents are the old contents followed by the string |
| Walk.Test.Update | internal/gotest/reader.go:72 | the record's fields become the fold of the event into its old fields |
| Walk.Test.constructor | internal/gotest/reader.go:64-67 | `&Test{Name, Package}`: a record with that name and package, no output and an empty status |
| Walk.ValueOf | internal/gotest/reader.go:106-130 | `testCase.Value = *node.Value` then `Output = Output[:0]`: the returned value keeps the name, package and status and has an empty output |
| Walk.PrefixLog.constructor | internal/gotest/reader.go:209-211 | `newPrefixLog`: a fresh empty buffer, an empty prefix, position 0 |
| Walk.PrefixLog.Copy | internal/gotest/reader.go:221-227 | `copy` gives a fresh context that shares the same buffer, keeps the prefix, and starts at the buffer's current length |
| Walk.PrefixLog.IncrPrefix | internal/gotest/reader.go:229-231 | the prefix gains one indentation unit |
| Walk.PrefixLog.DecrPrefix | internal/gotest/reader.go:233-235 | the prefix loses one trailing indentation unit when it has one |
| Walk.IncrThenDecr | internal/gotest/reader.go:133-134 | `incrPrefix` then the deferred `decrPrefix` restores the prefix |
| Walk.PrefixAtDepth | internal/gotest/reader.go:132-143 | the prefix at depth `d` below a top-level walk is `4*d` spaces; one more unit is depth `d+1`, and taking it off gives depth `d` back |
| Walk.PrefixRow | internal/gotest/reader.go:123-124 | defines the per-fragment step: a result row gets the prefix in front, any other fragment is unchanged; `Walk.PrefixRowAtDepth` states what that does to the row's class and unit count |
| Walk.PrefixRows | internal/gotest/reader.go:122-125 | prefixing result rows keeps the number of fragments |
| Walk.PrefixRowAtDepth | internal/gotest/reader.go:123-124 | a result row prefixed with `d` units stays a result row and gains exactly `d` units, and a non-result row stays a non-result row |
| Walk.ContainsAfterPrefix | internal/gotest/reader.go:124 | putting text in front of a row keeps every pattern it contains |
| Walk.Tail | internal/gotest/reader.go:147-156 | `Seek(pos)` followed by `io.ReadAll` gives what follows position `pos`, or nothing when `pos` is past the end |
| Walk.EmitOwnOutput | internal/gotest/reader.go:119-127 | the buffer becomes the old contents followed by each fragment in order, with result rows prefixed by `prefix.prefix` and other fragments unchanged; the same prefixed fragments are written back into the test's output |
| Walk.Written | internal/gotest/reader.go:119-143 | defines what a walk appends to the buffer: the node's fragments with result rows prefixed, then each child's text one unit deeper; `Walk.Walk` ties the buffer to it and `Walk.WrittenIsOutputs` relates it to `Walk.Prefixed` |
| Walk.Prefixed | internal/gotest/reader.go:119-143 | defines the outputs a walk leaves behind: every result row below the node prefixed for its depth, all else unchanged; `Walk.Walk` ties the tests to it and `Walk.PrefixedAtDepth` states its effect per depth |
| Walk.WrittenIsOutputs | internal/gotest/reader.go:119-143 | what a walk appends to the buffer is exactly the outputs it leaves in its tests, node by node in walk order, since each fragment is stored, prefixed, before it is written |
| Walk.WrittenUpToIsOutputs | internal/gotest/reader.go:139-143 | the same for the first `i` children of a node |
| Walk.Walk | internal/gotest/reader.go:99-207 | a nil node gives not-ok. Otherwise the walk restores the prefix and only appends to the buffer. What it appends is the node's prefixed output, then each child's text with one more unit. Every test below ends with its result rows prefixed for its depth. The returned test has empty output, a log of the node's own slice of the buffer, and the ok child walks in order |
| Walk.WalkBelow | internal/gotest/reader.go:132-204 | with one more unit of prefix, the children are walked in order and append their texts. The log is a log of everything written since the context's start. The prefix is restored afterwards |
| Walk.WalkChildren | internal/gotest/reader.go:139-143 | the children are walked in order with copies of the context; the ok results are kept in order and not-ok ones dropped; the buffer gains each child's text in order |
| Walk.WalkChild | internal/gotest/reader.go:140-142 | one child is walked with a copy of the context: its results are appended when ok, and its siblings are untouched |
| Walk.PrefixedAtDepth | internal/gotest/reader.go:119-143 | a walk from an empty prefix changes only outputs. At depth `d` a result row gains exactly `d` units and stays a result row; other rows stay as they were; children are handled at depth `d+1` |
| Walk.SiblingsStep | internal/gotest/reader.go:139-143 | walking child `i` advances the walked children from `i` to `i+1`, and the later siblings keep their snapshots |
| Walk.SiblingsUnchanged | internal/gotest/reader.go:139-143 | siblings that share no test with the walked child keep their snapshots |
| Walk.SnapUnchanged | internal/gotest/reader.go:124 | a tree's snapshot changes only through its tests' outputs or status |
| Walk.ChildrenDisjoint | internal/gotest/reader.go:139-143 | two different children of an owned node share no test |
| Trie.ParentName | internal/gotest/reader.go:62-68 | the parent name exists exactly when the name has a `/`: it is the part before the last `/` |
| Trie.Trie.constructor | internal/gotest/reader.go:40 | `&prefixNode{}`: an empty, valid trie |
| Trie.Trie.Find | internal/gotest/reader.go:62 | `find` gives a test exactly when the forest holds one with that key, and that test has the key |
| Trie.Trie.Insert | internal/gotest/reader.go:68 | `insert` of a new key adds exactly that key to the index, places the test, and keeps the trie valid |
| Trie.PlacedProps | internal/gotest/reader.go:68 | placing a new test adds it and nothing else, and keeps every test in one node and every child one segment below its parent; the test becomes a root exactly when its parent is missing |
| Trie.PlaceForestTests | internal/gotest/reader.go:68 | placing under a parent adds the test exactly when that parent is in the forest |
| Trie.IndexKeys | internal/gotest/reader.go:62 | the index's keys are the keys of the forest's tests |
| Trie.IndexInsert | internal/gotest/reader.go:68 | adding a test under its new key adds its value and keeps each key pointing at a test with that key |
| Reader.SeenIffSelected | internal/gotest/reader.go:59-73 | a key has a test exactly when some named row had that key |
| Reader.LinesStep | internal/gotest/reader.go:45-73 | one more line adds its row to its key's rows and its key to the keys seen when it is named, changes neither otherwise, and adds one error when it failed to decode |
| Reader.FoldRowsStep | internal/gotest/reader.go:72 | folding one more row applies `Update` to the fold so far |
| Reader.FoldLine | internal/gotest/reader.go:59-73 | a named row is folded into the test of its key, which is created and inserted first when the key is new; an unnamed row changes nothing |
| Reader.Lookup | internal/gotest/reader.go:60-70 | the test under `Package + "/" + TestName` is found when present, or created and inserted; other tests keep their folds |
| Reader.AddTest | internal/gotest/reader.go:63-69 | a new test for an unseen key is fresh and holds what no rows fold to |
| Reader.Apply | internal/gotest/reader.go:72 | `Update` moves its key's fold one row on and leaves every other test as it was |
| Reader.FoldStep | internal/gotest/reader.go:46-73 | one line scanned before cancellation: one more error on a decode failure, and the row is folded all the same |
| Reader.Fold | internal/gotest/reader.go:38-74 | the loop cancels exactly when the context is done at a scanned line. Otherwise it counts the decode errors, creates one test per key of a named row, and each test holds its rows folded in order |
| Reader.CancelAt | internal/gotest/reader.go:46-49 | a done context at any scanned line means cancellation |
| Reader.WalkRoots | internal/gotest/reader.go:83-88 | each top-level node is walked with a fresh context, and the ok results are kept in order |
| Reader.WalkRoot | internal/gotest/reader.go:84-87 | one top-level node is walked with `newPrefixLog()`: its result is appended when ok, and the other nodes are untouched |
| Reader.KeysOfTree | internal/gotest/reader.go:40-74 | a tree's snapshot has the keys of the tree's tests |
| Reader.TreeFolded | internal/gotest/reader.go:40-74 | every test under a node in a grouped trie holds its key's fold |
| Reader.FoldedForest | internal/gotest/reader.go:40-74 | after the fold the forest's snapshot has exactly the keys seen, each holding its key's fold |
| Reader.IndexInjective | internal/gotest/reader.go:62-68 | a keyed index whose every entry has its own key never holds two different tests with the same key |
| Reader.DisjointKeys | internal/gotest/reader.go:62-68 | disjoint sets of tests from a key-injective set have disjoint key sets |
| Reader.TreeDistinct | internal/gotest/reader.go:62-68 | a tree that holds each test once, drawn from a key-injective set, has no key at two nodes |
| Reader.UpToDistinct | internal/gotest/reader.go:62-68 | the same for the first `i` children of a node: no key at two nodes among them |
| Reader.LastKeysApart | internal/gotest/reader.go:62-68 | in such a node, child `i - 1` shares no key with the children before it |
| Reader.WalkFolded | internal/gotest/reader.go:83-91 | the top-level tests left by the fold are walked in order. The forest walked has exactly the keys seen, no key at two nodes, and each node holds its key's fold |
| Reader.ReadAll | internal/gotest/reader.go:37-94 | the outcome is the cancellation error exactly when the context is done at a scanned line, so empty input is never cancelled. Otherwise it is the decode error count and the ok walks, in order, of the top-level tests as the fold left them; that forest has exactly the keys seen, no key at two nodes, and each node holds its key's fold |

## Left out

- Line scanning and JSON decoding (`bufio.Scanner`, `json.Unmarshal`) are library calls. Each input line is a
  decoded `Entry` with a decode-failed flag and a context-done flag.
- `context` cancellation is a flag per scanned line, checked only after the line is scanned (lines 45-49).
- `errors.Join` and `fmt.Errorf` formatting: `ReadAll` reports only the number of decode errors.
- `Test.Update`, `Entry` and the `Action*` constants are defined outside reader.go.
  - `Update` is a function parameter.
  - The constants are taken as the event actions `fail`, `pass` and `skip`.
  - `Test` carries its name, package, output fragments and one status field. That field stands for the verdict and
    timing fields, which the walk only copies.
- `prefixNode.find` and `prefixNode.insert` are defined outside reader.go.
  - The trie here places a new test under the node of its name with the last segment removed, when that node
    exists, and at the top level otherwise.
  - The intermediate nodes created for missing segments are not modelled.
  - The walk's properties hold for any tree that holds each test once.
- Trie.Trie.Insert: stated only for a key that is not there yet, the only case line 68 reaches.
- The synthetic root `&prefixNode{}` has a nil `Value`. `Reader.WalkFolded` gives it a placeholder test that is never
  walked; only its children are walked, as at line 84.
- Walk.Walk: the nil `node.Value` case (line 106 dereferences it) is excluded by the tree's type rather than
  modelled.
- Walk.Walk: requires `Owned(node)`, meaning no test sits in two nodes. The trie the reader builds guarantees this
  (`Trie.PlacedProps`).
- The `Seek` and `io.ReadAll` error branches (lines 148-156) cannot fail on a `bytes.Reader`. The read is
  `Walk.Tail`, so `Walk.Walk` is ok exactly for a non-nil node.
- Buffers are `seq<char>`, not bytes. Every pattern the reader looks for is ASCII.
- Capacity hints (`make(..., 0, 64)`, `make([]NestedTest, 0, n)`) and the final `copy` into `result.Tests`
  (lines 90-91) do not change any value.
- `slice.Map` is an external helper. It is inlined as `Rows.AddNewlines`.
- The insertion sort standing in for `sort.Slice` is stable, but the model promises only what the source promises:
  a permutation in non-decreasing order of indentation count.
- Rows.NoResultRowsStripsAll: stated for texts of at most `1<<31 - 1` characters, so that `mx` is at least every
  line's unit count.
- Rows.ResultRowsNormalized: stated for texts of at most `1<<31 - 1` characters, for the same reason.
