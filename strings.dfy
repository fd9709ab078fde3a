/** The parts of Go's `strings` and `bytes` packages that the gotest reader
    relies on, written out as functions over `seq<char>`.

    Every search here is the one Go performs: a left-to-right scan that, on a
    match, continues right after the match, so occurrences never overlap and
    are found anywhere in the text, not only at its start. */
module GoStrings {

  /** `whitespaceIndent`: one level of nesting in `go test -v` output. */
  const Indent: string := "    "

  /** `strings.HasPrefix` */
  predicate HasPrefix(s: string, p: string)
  {
    |p| <= |s| && s[..|p|] == p
  }

  /** `strings.HasSuffix` */
  predicate HasSuffix(s: string, p: string)
  {
    |p| <= |s| && s[|s| - |p|..] == p
  }

  /** `strings.TrimSuffix`: drops one copy of `p` from the end when it is there. */
  function TrimSuffix(s: string, p: string): (r: string)
    ensures HasSuffix(s, p) ==> r + p == s
    ensures !HasSuffix(s, p) ==> r == s
  {
    if HasSuffix(s, p) then s[..|s| - |p|] else s
  }

  lemma TrimSuffixUndoesAppend(s: string, p: string)
    ensures TrimSuffix(s + p, p) == s
  {
    assert (s + p)[|s|..] == p;
  }

  /** `p` occurs in `s` starting at index `i`. */
  ghost predicate OccursAt(s: string, p: string, i: int)
  {
    0 <= i && i + |p| <= |s| && s[i..i + |p|] == p
  }

  /** `strings.Contains`, as the scan `strings.Index` performs. */
  predicate Contains(s: string, p: string)
    decreases |s|
  {
    HasPrefix(s, p) || (|s| > 0 && Contains(s[1..], p))
  }

  /** The scan finds `p` exactly when `p` occurs at some index. */
  lemma {:induction false} ContainsIff(s: string, p: string)
    ensures Contains(s, p) <==> exists i :: OccursAt(s, p, i)
    decreases |s|
  {
    if HasPrefix(s, p) {
      assert OccursAt(s, p, 0);
    } else if |s| > 0 {
      ContainsIff(s[1..], p);
      if Contains(s[1..], p) {
        var i :| OccursAt(s[1..], p, i);
        assert s[i + 1..i + 1 + |p|] == s[1..][i..i + |p|];
        assert OccursAt(s, p, i + 1);
      } else {
        forall i | OccursAt(s, p, i) ensures false {
          assert i != 0;
          assert s[1..][i - 1..i - 1 + |p|] == s[i..i + |p|];
          assert OccursAt(s[1..], p, i - 1);
        }
      }
    } else {
      forall i | OccursAt(s, p, i) ensures false {
      }
    }
  }

  /** `strings.Count` for a non-empty pattern: the number of non-overlapping
      occurrences of `p` that a left-to-right scan finds. */
  function Count(s: string, p: string): nat
    requires |p| > 0
    decreases |s|
  {
    if |s| < |p| then 0
    else if HasPrefix(s, p) then 1 + Count(s[|p|..], p)
    else Count(s[1..], p)
  }

  /** `strings.Replace(s, p, "", n)` for `n >= 0` and a non-empty pattern:
      removes the first `n` occurrences that the same scan finds. */
  function Replace(s: string, p: string, n: nat): string
    requires |p| > 0
    decreases |s|
  {
    if n == 0 || |s| < |p| then s
    else if HasPrefix(s, p) then Replace(s[|p|..], p, n - 1)
    else [s[0]] + Replace(s[1..], p, n)
  }

  function Min(a: nat, b: nat): nat
  {
    if a <= b then a else b
  }

  /** No more occurrences can be found than there are characters. */
  lemma {:induction false} CountAtMostLength(s: string, p: string)
    requires |p| > 0
    ensures Count(s, p) <= |s|
    decreases |s|
  {
    if |s| < |p| {
    } else if HasPrefix(s, p) {
      CountAtMostLength(s[|p|..], p);
    } else {
      CountAtMostLength(s[1..], p);
    }
  }

  /** Replace removes exactly `min(n, Count(s, p))` copies of `p`. */
  lemma {:induction false} ReplaceLength(s: string, p: string, n: nat)
    requires |p| > 0
    ensures |Replace(s, p, n)| == |s| - |p| * Min(n, Count(s, p))
    decreases |s|
  {
    if n == 0 || |s| < |p| {
      assert Min(n, Count(s, p)) == 0;
    } else if HasPrefix(s, p) {
      ReplaceLength(s[|p|..], p, n - 1);
      var k := Min(n - 1, Count(s[|p|..], p));
      assert Min(n, Count(s, p)) == k + 1;
      MulSucc(|p|, k);
    } else {
      ReplaceLength(s[1..], p, n);
    }
  }

  lemma MulSucc(a: nat, k: nat)
    ensures a * (k + 1) == a * k + a
  {
  }

  /** `d` indentation units. */
  function Units(d: nat): (r: string)
    ensures |r| == 4 * d
    ensures forall k :: 0 <= k < |r| ==> r[k] == ' '
  {
    if d == 0 then "" else Indent + Units(d - 1)
  }

  /** Each leading unit is one occurrence, so `d` units in front add `d`. */
  lemma {:induction false} CountAfterUnits(d: nat, s: string)
    ensures Count(Units(d) + s, Indent) == d + Count(s, Indent)
  {
    if d > 0 {
      var t := Units(d - 1) + s;
      assert Units(d) + s == Indent + t;
      assert |Indent| == 4;
      assert (Indent + t)[..4] == Indent;
      assert (Indent + t)[4..] == t;
      assert Count(Indent + t, Indent) == 1 + Count(t, Indent);
      CountAfterUnits(d - 1, s);
    } else {
      assert Units(d) + s == s;
    }
  }

  /** The number of spaces `s` starts with. */
  function LeadingSpaces(s: string): nat
    decreases |s|
  {
    if |s| > 0 && s[0] == ' ' then 1 + LeadingSpaces(s[1..]) else 0
  }

  lemma HasIndentAt(s: string)
    ensures HasPrefix(s, Indent) <==> |s| >= 4 && s[0] == ' ' && s[1] == ' ' && s[2] == ' ' && s[3] == ' '
  {
    assert Indent == [' ', ' ', ' ', ' '];
    if |s| >= 4 {
      assert s[..4] == [s[0], s[1], s[2], s[3]];
    }
  }

  /** A string starts with `k` spaces exactly when its leading run is at least `k` long. */
  lemma {:induction false} LeadingSpacesAtLeast(s: string, k: nat)
    ensures LeadingSpaces(s) >= k <==> k <= |s| && forall i :: 0 <= i < k ==> s[i] == ' '
    decreases k
  {
    if k > 0 && |s| > 0 && s[0] == ' ' {
      LeadingSpacesAtLeast(s[1..], k - 1);
      assert forall i :: 1 <= i < k && i < |s| ==> s[i] == s[1..][i - 1];
    }
  }

  lemma HasIndentIff(s: string)
    ensures HasPrefix(s, Indent) <==> LeadingSpaces(s) >= 4
  {
    HasIndentAt(s);
    LeadingSpacesAtLeast(s, 4);
  }

  /** Replacing units cannot touch a run of fewer than four spaces at the front:
      the scan steps over them one by one. */
  lemma {:induction false} ReplaceKeepsShortRun(s: string, n: nat)
    requires LeadingSpaces(s) < 4
    ensures LeadingSpaces(Replace(s, Indent, n)) == LeadingSpaces(s)
    decreases |s|
  {
    HasIndentIff(s);
    if n == 0 || |s| < 4 {
    } else {
      var t := Replace(s[1..], Indent, n);
      assert Replace(s, Indent, n) == [s[0]] + t;
      if s[0] == ' ' {
        ReplaceKeepsShortRun(s[1..], n);
        assert ([s[0]] + t)[1..] == t;
      }
    }
  }

  /** Stripping `n` units removes exactly `min(n, Count)` of them: the pieces
      the scan glues back together never form a new unit. */
  lemma {:induction false} CountAfterReplace(s: string, n: nat)
    ensures Count(Replace(s, Indent, n), Indent) == Count(s, Indent) - Min(n, Count(s, Indent))
    decreases |s|
  {
    if n == 0 || |s| < 4 {
    } else if HasPrefix(s, Indent) {
      CountAfterReplace(s[4..], n - 1);
    } else {
      var t := Replace(s[1..], Indent, n);
      CountAfterReplace(s[1..], n);
      assert Replace(s, Indent, n) == [s[0]] + t;
      assert ([s[0]] + t)[1..] == t;
      // The glued string does not start with a unit, so its count is t's.
      HasIndentIff(s);
      HasIndentIff([s[0]] + t);
      if s[0] == ' ' {
        ReplaceKeepsShortRun(s[1..], n);
      }
      assert !HasPrefix([s[0]] + t, Indent);
    }
  }

  /** Stripping at least as many units as there are leaves none. */
  lemma StripAllUnits(s: string, n: nat)
    requires Count(s, Indent) <= n
    ensures Count(Replace(s, Indent, n), Indent) == 0
  {
    CountAfterReplace(s, n);
  }

  /** The concatenation of a list of strings. */
  function Concat(ss: seq<string>): string
  {
    if ss == [] then "" else ss[0] + Concat(ss[1..])
  }

  lemma {:induction false} ConcatAppend(a: seq<string>, b: seq<string>)
    ensures Concat(a + b) == Concat(a) + Concat(b)
  {
    if a != [] {
      assert (a + b)[0] == a[0];
      assert (a + b)[1..] == a[1..] + b;
      ConcatAppend(a[1..], b);
      assert Concat(a + b) == a[0] + Concat(a[1..] + b);
    } else {
      assert a + b == b;
    }
  }

  lemma {:induction false} ConcatPieceLength(ss: seq<string>, k: nat)
    requires k < |ss|
    ensures |ss[k]| <= |Concat(ss)|
  {
    if k > 0 {
      ConcatPieceLength(ss[1..], k - 1);
    }
  }

  /** `bytes.Split(s, []byte{'\n'})`: the pieces between newlines; an empty
      input gives one empty piece. */
  function Split(s: string): (r: seq<string>)
    ensures |r| >= 1
    ensures forall k :: 0 <= k < |r| ==> '\n' !in r[k]
    decreases |s|
  {
    if s == [] then [""]
    else
      var t := Split(s[1..]);
      if s[0] == '\n' then [""] + t else [[s[0]] + t[0]] + t[1..]
  }

  /** Joining the pieces with newlines between them: the inverse of Split. */
  function Join(r: seq<string>): string
    requires |r| >= 1
  {
    if |r| == 1 then r[0] else r[0] + "\n" + Join(r[1..])
  }

  lemma {:induction false} JoinSplit(s: string)
    ensures Join(Split(s)) == s
    decreases |s|
  {
    if s != [] {
      var t := Split(s[1..]);
      JoinSplit(s[1..]);
      if s[0] == '\n' {
        assert ([""] + t)[1..] == t;
      } else {
        var r := [[s[0]] + t[0]] + t[1..];
        if |t| > 1 {
          assert r[1..] == t[1..];
          assert Join(t) == t[0] + "\n" + Join(t[1..]);
        }
      }
    }
  }

  lemma {:induction false} SplitJoin(r: seq<string>)
    requires |r| >= 1
    requires forall k :: 0 <= k < |r| ==> '\n' !in r[k]
    ensures Split(Join(r)) == r
    decreases |Join(r)|, |r[0]|
  {
    var s := Join(r);
    if r[0] == [] {
      if |r| > 1 {
        assert s == "\n" + Join(r[1..]);
        assert s[1..] == Join(r[1..]);
        SplitJoin(r[1..]);
        assert r == [""] + r[1..];
      }
    } else {
      var c := r[0][0];
      var r' := [r[0][1..]] + r[1..];
      assert r'[1..] == r[1..];
      assert Join(r') == if |r| == 1 then r[0][1..] else r[0][1..] + "\n" + Join(r[1..]);
      assert s == [c] + Join(r');
      assert s[1..] == Join(r');
      SplitJoin(r');
      assert [c] + r'[0] == r[0];
      assert r == [[c] + r'[0]] + r'[1..];
    }
  }

  /** `strings.ToUpper` on ASCII letters: every lower-case letter becomes its
      upper-case letter and every other character stays. */
  function ToUpper(s: string): (r: string)
    ensures |r| == |s|
    ensures forall k :: 0 <= k < |s| && 'a' <= s[k] <= 'z' ==> r[k] as int == s[k] as int - ('a' as int - 'A' as int)
    ensures forall k :: 0 <= k < |s| && !('a' <= s[k] <= 'z') ==> r[k] == s[k]
  {
    if s == [] then ""
    else [if 'a' <= s[0] <= 'z' then (s[0] as int - 32) as char else s[0]] + ToUpper(s[1..])
  }

  /** `t` is the upper-case form of `s` when they agree character by
      character. */
  lemma UpperOf(s: string, t: string)
    requires |s| == |t|
    requires forall k :: 0 <= k < |s| && 'a' <= s[k] <= 'z' ==> t[k] as int == s[k] as int - 32
    requires forall k :: 0 <= k < |s| && !('a' <= s[k] <= 'z') ==> t[k] == s[k]
    ensures ToUpper(s) == t
  {
    var r := ToUpper(s);
    forall k | 0 <= k < |s| ensures r[k] == t[k] {
      if 'a' <= s[k] <= 'z' {
        assert r[k] as int == t[k] as int;
      }
    }
  }
}
