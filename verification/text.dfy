/** String operations of Python's `str` and `re` that the pipeline relies on:
    whitespace, `strip`, slicing with `[:n]`, `split`/`join`, `replace`, and the
    run-collapsing substitutions `re.sub(r"\s+", " ", s)` and `re.sub(r"_+", "_", s)`. */
module Text {

  /** The code points Python's `str.isspace()` (and the regex class `\s` on `str`
      patterns) treat as whitespace. */
  predicate IsSpace(c: char) {
    || ('\t' <= c <= '\r')
    || ('\U{1C}' <= c <= ' ')
    || c == '\U{85}' || c == '\U{A0}' || c == '\U{1680}'
    || ('\U{2000}' <= c <= '\U{200A}')
    || c == '\U{2028}' || c == '\U{2029}' || c == '\U{202F}' || c == '\U{205F}' || c == '\U{3000}'
  }

  /** A class of characters: an explicit set (the argument of `strip(chars)` or of a
      regex character class), or Python's whitespace. */
  datatype CharClass = Chars(members: set<char>) | Space

  predicate In(c: char, k: CharClass) {
    match k
    case Chars(m) => c in m
    case Space => IsSpace(c)
  }

  /** True iff `s.strip()` is empty, i.e. `s` is falsy after stripping. */
  predicate Blank(s: string) {
    forall i :: 0 <= i < |s| ==> IsSpace(s[i])
  }

  function Min(a: int, b: int): int {
    if a <= b then a else b
  }

  function Max(a: int, b: int): int {
    if a <= b then b else a
  }

  predicate IsPrefix(p: string, s: string) {
    |p| <= |s| && p == s[..|p|]
  }

  /** Python's `s[:n]`: the first `n` characters, or all but the last `-n` when `n` is negative. */
  function Prefix(s: string, n: int): (r: string)
    ensures IsPrefix(r, s)
    ensures n >= 0 ==> |r| == Min(n, |s|)
    ensures n < 0 ==> |r| == Max(0, |s| + n)
  {
    if n >= 0 then (if n <= |s| then s[..n] else s)
    else if |s| + n >= 0 then s[..|s| + n]
    else []
  }

  // ---------------------------------------------------------------------------
  // strip
  // ---------------------------------------------------------------------------

  /** Python's `s.lstrip(chars)`: the longest suffix of `s` not starting with a character of `cs`. */
  function TrimStart(s: string, cs: CharClass): (r: string)
    ensures |r| <= |s| && r == s[|s| - |r|..]
    ensures |r| > 0 ==> !In(r[0], cs)
    ensures forall i :: 0 <= i < |s| - |r| ==> In(s[i], cs)
    decreases |s|
  {
    if |s| > 0 && In(s[0], cs) then TrimStart(s[1..], cs) else s
  }

  /** Python's `s.rstrip(chars)`: the longest prefix of `s` not ending with a character of `cs`. */
  function TrimEnd(s: string, cs: CharClass): (r: string)
    ensures IsPrefix(r, s)
    ensures |r| > 0 ==> !In(r[|r| - 1], cs)
    ensures forall i :: |r| <= i < |s| ==> In(s[i], cs)
    decreases |s|
  {
    if |s| > 0 && In(s[|s| - 1], cs) then TrimEnd(s[..|s| - 1], cs) else s
  }

  /** How many characters `s.strip(chars)` removes at the front. */
  function LeadLen(s: string, cs: CharClass): (n: nat)
    ensures n <= |s|
    ensures forall i :: 0 <= i < n ==> In(s[i], cs)
    ensures n < |s| ==> !In(s[n], cs)
  {
    |s| - |TrimStart(s, cs)|
  }

  /** Python's `s.strip(chars)`: `s` with every leading and trailing character of `cs`
      removed. The result is the slice of `s` that starts after the removed prefix,
      everything cut off on either side belongs to `cs`, and neither end of the
      result does. */
  function Strip(s: string, cs: CharClass): (r: string)
    ensures |r| <= |s| - LeadLen(s, cs)
    ensures r == s[LeadLen(s, cs)..LeadLen(s, cs) + |r|]
    ensures forall i :: LeadLen(s, cs) + |r| <= i < |s| ==> In(s[i], cs)
    ensures |r| > 0 ==> !In(r[0], cs) && !In(r[|r| - 1], cs)
  {
    TrimEnd(TrimStart(s, cs), cs)
  }

  /** Python's argument-less `s.strip()`. */
  function StripSpace(s: string): (r: string)
    ensures |r| > 0 ==> !IsSpace(r[0]) && !IsSpace(r[|r| - 1])
    ensures |r| <= |s| - LeadLen(s, Space)
    ensures r == s[LeadLen(s, Space)..LeadLen(s, Space) + |r|]
    ensures Blank(s[LeadLen(s, Space) + |r|..])
  {
    var r := Strip(s, Space);
    BlankTail(s, LeadLen(s, Space) + |r|);
    r
  }

  /** A tail made only of whitespace is blank. */
  lemma BlankTail(s: string, k: nat)
    requires k <= |s| && forall i :: k <= i < |s| ==> In(s[i], Space)
    ensures Blank(s[k..])
  {
    forall i | 0 <= i < |s| - k
      ensures IsSpace(s[k..][i])
    {
      assert s[k..][i] == s[k + i];
    }
  }

  /** `s.strip(chars)` is empty exactly when every character of `s` is in `cs`;
      in particular `s.strip()` is falsy exactly when `s` is blank. */
  lemma StripEmptyIff(s: string, cs: CharClass)
    ensures Strip(s, cs) == [] <==> forall i :: 0 <= i < |s| ==> In(s[i], cs)
  {
    var n := LeadLen(s, cs);
    if n < |s| {
      assert !In(s[n], cs);
      assert Strip(s, cs) != [] by {
        var t := TrimStart(s, cs);
        assert t[0] == s[n];
        assert |TrimEnd(t, cs)| > 0;
      }
    }
  }

  /** A string whose ends are not in `cs` is left alone by `strip(chars)`; so
      `strip` is idempotent. */
  lemma StripFixed(s: string, cs: CharClass)
    requires |s| > 0 ==> !In(s[0], cs) && !In(s[|s| - 1], cs)
    ensures Strip(s, cs) == s
  {
  }

  lemma StripIdempotent(s: string, cs: CharClass)
    ensures Strip(Strip(s, cs), cs) == Strip(s, cs)
  {
    StripFixed(Strip(s, cs), cs);
  }

  // ---------------------------------------------------------------------------
  // split and join on one separator character
  // ---------------------------------------------------------------------------

  /** Position of the first occurrence of `c` in `s` (`s.index(c)`). */
  function IndexOf(s: string, c: char): (k: nat)
    requires c in s
    ensures k < |s| && s[k] == c
    ensures c !in s[..k]
  {
    if s[0] == c then 0 else 1 + IndexOf(s[1..], c)
  }

  /** Sum of the lengths of the pieces. */
  function TotalLength(parts: seq<string>): nat
  {
    if |parts| == 0 then 0 else |parts[0]| + TotalLength(parts[1..])
  }

  /** Python's `sep.join(parts)` for a one-character separator: every piece, in
      order, with one separator between neighbours and none at either end; `Split`
      undoes it for separator-free pieces (`SplitJoin`). */
  function Join(parts: seq<string>, sep: char): (r: string)
    ensures |parts| > 0 ==> |r| == TotalLength(parts) + |parts| - 1
    ensures |parts| > 0 ==> IsPrefix(parts[0], r)
    ensures |parts| > 1 ==> r[|parts[0]|] == sep
  {
    if |parts| == 0 then ""
    else if |parts| == 1 then parts[0]
    else parts[0] + [sep] + Join(parts[1..], sep)
  }

  /** Python's `s.split(sep)` for a one-character separator: never empty, no
      piece contains the separator, and joining the pieces back gives `s`. */
  function Split(s: string, sep: char): (r: seq<string>)
    ensures |r| >= 1
    ensures forall i :: 0 <= i < |r| ==> sep !in r[i]
    ensures Join(r, sep) == s
    decreases |s|
  {
    if sep in s then
      var k := IndexOf(s, sep);
      assert s == s[..k] + [sep] + s[k + 1..];
      [s[..k]] + Split(s[k + 1..], sep)
    else
      [s]
  }

  /** The first separator after a separator-free `a` sits right after `a`. */
  lemma {:induction false} IndexOfAfter(a: string, sep: char, b: string)
    requires sep !in a
    ensures sep in a + [sep] + b
    ensures IndexOf(a + [sep] + b, sep) == |a|
    decreases |a|
  {
    var s := a + [sep] + b;
    assert s[|a|] == sep;
    if |a| > 0 {
      assert s[0] == a[0] != sep;
      assert s[1..] == a[1..] + [sep] + b;
      IndexOfAfter(a[1..], sep, b);
    }
  }

  /** The other round trip: splitting a join of separator-free pieces gives the
      pieces back. */
  lemma {:induction false} SplitJoin(parts: seq<string>, sep: char)
    requires |parts| >= 1
    requires forall i :: 0 <= i < |parts| ==> sep !in parts[i]
    ensures Split(Join(parts, sep), sep) == parts
  {
    if |parts| > 1 {
      var s := Join(parts, sep);
      var rest := Join(parts[1..], sep);
      assert s == parts[0] + [sep] + rest;
      assert sep in s by { assert s[|parts[0]|] == sep; }
      var k := IndexOf(s, sep);
      IndexOfAfter(parts[0], sep, rest);
      assert s[..k] == parts[0];
      assert s[k + 1..] == rest;
      SplitJoin(parts[1..], sep);
      assert parts == [parts[0]] + parts[1..];
    } else {
      assert Join(parts, sep) == parts[0];
    }
  }

  /** Joining one piece gives that piece. */
  lemma JoinSingle(p: string, sep: char)
    ensures Join([p], sep) == p
  {
  }

  /** Joining two non-empty lists of pieces is joining each and putting one separator
      between the results: every piece appears, in order, separated by `sep`. */
  lemma {:induction false} JoinAppend(a: seq<string>, b: seq<string>, sep: char)
    requires |a| > 0 && |b| > 0
    ensures Join(a + b, sep) == Join(a, sep) + [sep] + Join(b, sep)
    decreases |a|
  {
    if |a| == 1 {
      assert (a + b)[0] == a[0] && (a + b)[1..] == b;
    } else {
      JoinAppend(a[1..], b, sep);
      assert (a + b)[0] == a[0] && (a + b)[1..] == a[1..] + b;
    }
  }

  /** A join is empty exactly when there is at most one piece and it is empty. */
  lemma {:induction false} JoinEmptyIff(parts: seq<string>, sep: char)
    ensures Join(parts, sep) == "" <==> |parts| == 0 || (|parts| == 1 && parts[0] == "")
  {
    if |parts| > 1 {
      assert |Join(parts, sep)| >= |parts[0]| + 1;
    }
  }

  /** Python's `"".join(parts)`: as long as all the pieces together, starting with
      the first; it is empty exactly when every piece is (`ConcatEmptyIff`). */
  function Concat(parts: seq<string>): (r: string)
    ensures |r| == TotalLength(parts)
    ensures |parts| > 0 ==> IsPrefix(parts[0], r)
  {
    if |parts| == 0 then "" else parts[0] + Concat(parts[1..])
  }

  /** Concatenating one piece gives that piece. */
  lemma ConcatSingle(p: string)
    ensures Concat([p]) == p
  {
  }

  /** Concatenation distributes over appending lists of pieces: every piece appears,
      in order, with nothing between. */
  lemma {:induction false} ConcatAppend(a: seq<string>, b: seq<string>)
    ensures Concat(a + b) == Concat(a) + Concat(b)
    decreases |a|
  {
    if |a| == 0 {
      assert a + b == b;
    } else {
      calc {
        Concat(a + b);
      == { assert (a + b)[0] == a[0] && (a + b)[1..] == a[1..] + b; }
        a[0] + Concat(a[1..] + b);
      == { ConcatAppend(a[1..], b); }
        a[0] + (Concat(a[1..]) + Concat(b));
      ==
        Concat(a) + Concat(b);
      }
    }
  }

  /** A concatenation is empty exactly when every piece is. */
  lemma {:induction false} ConcatEmptyIff(parts: seq<string>)
    ensures Concat(parts) == "" <==> forall i :: 0 <= i < |parts| ==> parts[i] == ""
  {
    if |parts| > 0 {
      ConcatEmptyIff(parts[1..]);
      assert forall i :: 1 <= i < |parts| ==> parts[i] == parts[1..][i - 1];
    }
  }

  // ---------------------------------------------------------------------------
  // substring search and replace
  // ---------------------------------------------------------------------------

  predicate OccursAt(s: string, t: string, i: int) {
    0 <= i && i + |t| <= |s| && s[i..i + |t|] == t
  }

  /** Python's `t in s`. */
  predicate Contains(s: string, t: string) {
    exists i :: 0 <= i <= |s| - |t| && OccursAt(s, t, i)
  }

  predicate EndsWith(s: string, t: string) {
    |t| <= |s| && s[|s| - |t|..] == t
  }

  /** Python's `s.replace(target, repl)` for a non-empty `target`: occurrences are found
      left to right without overlap and each is replaced by `repl`. A string that
      does not contain `target` is returned unchanged (`ReplaceAbsent`), and a
      same-length replacement keeps the length. */
  function Replace(s: string, target: string, repl: string): (r: string)
    requires |target| > 0
    ensures |target| == |repl| ==> |r| == |s|
    decreases |s|
  {
    if |s| < |target| then s
    else if s[..|target|] == target then repl + Replace(s[|target|..], target, repl)
    else [s[0]] + Replace(s[1..], target, repl)
  }

  /** A text without an occurrence of `target` is returned unchanged. */
  lemma {:induction false} ReplaceAbsent(s: string, target: string, repl: string)
    requires |target| > 0
    ensures !Contains(s, target) ==> Replace(s, target, repl) == s
    decreases |s|
  {
    if |s| >= |target| && !Contains(s, target) {
      assert !OccursAt(s, target, 0);
      assert !Contains(s[1..], target) by {
        if Contains(s[1..], target) {
          var i :| 0 <= i <= |s| - 1 - |target| && OccursAt(s[1..], target, i);
          assert s[i + 1..i + 1 + |target|] == s[1..][i..i + |target|];
          assert OccursAt(s, target, i + 1);
        }
      }
      ReplaceAbsent(s[1..], target, repl);
    }
  }

  /** Up to the first occurrence of `target`, at `k`, the text is kept; that occurrence
      is replaced and the search resumes after it. */
  lemma {:induction false} ReplaceFirstAt(s: string, target: string, repl: string, k: nat)
    requires |target| > 0
    requires OccursAt(s, target, k)
    requires forall i :: 0 <= i < k ==> !OccursAt(s, target, i)
    ensures Replace(s, target, repl) == s[..k] + repl + Replace(s[k + |target|..], target, repl)
    decreases k, 1
  {
    if k == 0 {
      ReplaceMatchHere(s, target, repl);
    } else {
      ReplaceFirstAtLater(s, target, repl, k);
    }
  }

  lemma {:induction false} ReplaceFirstAtLater(s: string, target: string, repl: string, k: nat)
    requires |target| > 0 && 0 < k
    requires OccursAt(s, target, k)
    requires forall i :: 0 <= i < k ==> !OccursAt(s, target, i)
    ensures Replace(s, target, repl) == s[..k] + repl + Replace(s[k + |target|..], target, repl)
    decreases k, 0
  {
    assert !OccursAt(s, target, 0);
    assert Replace(s[1..], target, repl)
        == s[1..][..k - 1] + repl + Replace(s[1..][k - 1 + |target|..], target, repl) by {
      NoMatchShift(s, target, k);
      ReplaceFirstAt(s[1..], target, repl, k - 1);
    }
    ReplaceFirstAtStep(s, target, repl, k);
  }

  lemma ReplaceFirstAtStep(s: string, target: string, repl: string, k: nat)
    requires |target| > 0 && 0 < k && k + |target| <= |s|
    requires !OccursAt(s, target, 0)
    requires Replace(s[1..], target, repl)
          == s[1..][..k - 1] + repl + Replace(s[1..][k - 1 + |target|..], target, repl)
    ensures Replace(s, target, repl) == s[..k] + repl + Replace(s[k + |target|..], target, repl)
  {
    var x := Replace(s[k + |target|..], target, repl);
    var y := Replace(s[1..], target, repl);
    assert y == s[1..k] + repl + x by {
      TailSlices(s, k, |target|);
    }
    ReplaceNoMatchHere(s, target, repl);
    HeadThenRest(s, k, repl, x);
  }

  lemma TailSlices(s: string, k: nat, n: nat)
    requires 0 < k && k + n <= |s|
    ensures s[1..][..k - 1] == s[1..k] && s[1..][k - 1 + n..] == s[k + n..]
  {
  }

  lemma HeadThenRest(s: string, k: nat, repl: string, x: string)
    requires 0 < k <= |s|
    ensures [s[0]] + (s[1..k] + repl + x) == s[..k] + repl + x
  {
    assert s[..k] == [s[0]] + s[1..k];
  }

  /** An occurrence at position 0 is replaced. */
  lemma ReplaceMatchHere(s: string, target: string, repl: string)
    requires |target| > 0
    requires OccursAt(s, target, 0)
    ensures Replace(s, target, repl) == repl + Replace(s[|target|..], target, repl)
  {
  }

  /** No occurrence at position 0: the first character is kept as it is. */
  lemma ReplaceNoMatchHere(s: string, target: string, repl: string)
    requires |target| > 0 && |s| > 0
    requires !OccursAt(s, target, 0)
    ensures Replace(s, target, repl) == [s[0]] + Replace(s[1..], target, repl)
  {
  }

  lemma NoMatchShift(s: string, target: string, k: nat)
    requires 0 < k
    requires OccursAt(s, target, k)
    requires forall i :: 0 <= i < k ==> !OccursAt(s, target, i)
    ensures OccursAt(s[1..], target, k - 1)
    ensures forall i :: 0 <= i < k - 1 ==> !OccursAt(s[1..], target, i)
  {
    assert s[1..][k - 1..k - 1 + |target|] == s[k..k + |target|];
    forall i | 0 <= i < k - 1
      ensures !OccursAt(s[1..], target, i)
    {
      assert !OccursAt(s, target, i + 1);
      assert i + |target| <= |s| - 1 ==> s[1..][i..i + |target|] == s[i + 1..i + 1 + |target|];
    }
  }

  /** Replacing one character by another rewrites exactly the matching positions. */
  lemma {:induction false} ReplaceCharByChar(s: string, a: char, b: char)
    ensures |Replace(s, [a], [b])| == |s|
    ensures forall i :: 0 <= i < |s| ==> Replace(s, [a], [b])[i] == (if s[i] == a then b else s[i])
    decreases |s|
  {
    if |s| > 0 {
      ReplaceCharByChar(s[1..], a, b);
      var r := Replace(s, [a], [b]);
      var tail := Replace(s[1..], [a], [b]);
      if s[..1] == [a] {
        assert r == [b] + tail;
      } else {
        assert r == [s[0]] + tail;
      }
    }
  }

  /** Python's `s.replace(c, "")`: the characters other than `c`, in order. */
  function Without(s: string, c: char): (r: string)
    ensures c !in r
    ensures |r| <= |s|
  {
    if |s| == 0 then []
    else if s[0] == c then Without(s[1..], c)
    else [s[0]] + Without(s[1..], c)
  }

  /** Deleting a one-character target removes every occurrence of it. */
  lemma {:induction false} ReplaceCharByNothing(s: string, c: char)
    ensures Replace(s, [c], "") == Without(s, c)
    ensures c !in Replace(s, [c], "")
    decreases |s|
  {
    if |s| > 0 {
      ReplaceCharByNothing(s[1..], c);
      if s[..1] == [c] {
        assert s[0] == c;
      } else {
        assert s[0] != c;
      }
    }
  }

  // ---------------------------------------------------------------------------
  // character classes
  // ---------------------------------------------------------------------------

  /** The characters of `s` outside `cs`, in order. */
  function Remove(s: string, cs: CharClass): (r: string)
    ensures forall i :: 0 <= i < |r| ==> !In(r[i], cs)
  {
    if |s| == 0 then []
    else if In(s[0], cs) then Remove(s[1..], cs)
    else [s[0]] + Remove(s[1..], cs)
  }

  lemma {:induction false} RemoveAppend(a: string, b: string, cs: CharClass)
    ensures Remove(a + b, cs) == Remove(a, cs) + Remove(b, cs)
    decreases |a|
  {
    if |a| > 0 {
      RemoveAppend(a[1..], b, cs);
      assert (a + b)[1..] == a[1..] + b;
    } else {
      assert a + b == b;
    }
  }

  /** Dropping characters of `cs` does not change what `Remove` keeps. */
  lemma {:induction false} RemoveAllIn(s: string, cs: CharClass)
    requires forall i :: 0 <= i < |s| ==> In(s[i], cs)
    ensures Remove(s, cs) == []
    decreases |s|
  {
    if |s| > 0 {
      RemoveAllIn(s[1..], cs);
    }
  }

  /** `re.sub("[cs]+", rep, s)` with `rep` one of the class: every maximal run of
      characters of `cs` becomes one `rep`. Afterwards no two neighbours are both in
      `cs`, the only class member left is `rep`, and the characters outside the
      class survive in order (`CollapseRunsKeepsContent`). */
  function CollapseRuns(s: string, cs: CharClass, rep: char): (r: string)
    requires In(rep, cs)
    ensures |r| <= |s|
    ensures |r| > 0 && In(r[0], cs) <==> |s| > 0 && In(s[0], cs)
    ensures forall i :: 0 <= i < |r| && In(r[i], cs) ==> r[i] == rep
    ensures forall i :: 0 <= i < |r| - 1 ==> !(In(r[i], cs) && In(r[i + 1], cs))
    decreases |s|
  {
    if |s| == 0 then []
    else if In(s[0], cs) then [rep] + CollapseRuns(TrimStart(s, cs), cs, rep)
    else [s[0]] + CollapseRuns(s[1..], cs, rep)
  }

  /** What is outside the class survives collapsing, in order. */
  lemma {:induction false} CollapseRunsKeepsContent(s: string, cs: CharClass, rep: char)
    requires In(rep, cs)
    ensures Remove(CollapseRuns(s, cs, rep), cs) == Remove(s, cs)
    decreases |s|
  {
    if |s| == 0 {
    } else if In(s[0], cs) {
      var rest := TrimStart(s, cs);
      CollapseRunsKeepsContent(rest, cs, rep);
      RemoveTrimStart(s, cs);
      RemoveDropsHead(rep, CollapseRuns(rest, cs, rep), cs);
    } else {
      CollapseRunsKeepsContent(s[1..], cs, rep);
      RemoveKeepsHead(s[0], CollapseRuns(s[1..], cs, rep), cs);
    }
  }

  lemma RemoveDropsHead(c: char, t: string, cs: CharClass)
    requires In(c, cs)
    ensures Remove([c] + t, cs) == Remove(t, cs)
  {
    assert ([c] + t)[1..] == t;
  }

  lemma RemoveKeepsHead(c: char, t: string, cs: CharClass)
    requires !In(c, cs)
    ensures Remove([c] + t, cs) == [c] + Remove(t, cs)
  {
    assert ([c] + t)[1..] == t;
  }

  /** Deleting occurrences of a `target` made only of class characters keeps what lies
      outside the class, in order. */
  lemma {:induction false} ReplaceKeepsContent(s: string, target: string, cs: CharClass)
    requires |target| > 0
    requires forall i :: 0 <= i < |target| ==> In(target[i], cs)
    ensures Remove(Replace(s, target, ""), cs) == Remove(s, cs)
    decreases |s|, 2
  {
    if |s| >= |target| {
      if s[..|target|] == target {
        ReplaceKeepsContentMatch(s, target, cs);
      } else {
        ReplaceKeepsContentSkip(s, target, cs);
      }
    }
  }

  /** An occurrence of `target` at the front is dropped, and all of it is in `cs`. */
  lemma {:induction false} ReplaceKeepsContentMatch(s: string, target: string, cs: CharClass)
    requires |target| > 0 && |s| >= |target| && s[..|target|] == target
    requires forall i :: 0 <= i < |target| ==> In(target[i], cs)
    ensures Remove(Replace(s, target, ""), cs) == Remove(s, cs)
    decreases |s|, 1
  {
    var n := |target|;
    ReplaceKeepsContent(s[n..], target, cs);
    assert Replace(s, target, "") == Replace(s[n..], target, "");
    assert s == s[..n] + s[n..];
    RemoveAppend(s[..n], s[n..], cs);
    RemoveAllIn(s[..n], cs);
  }

  /** No occurrence at the front: the first character is kept by `Replace`. */
  lemma {:induction false} ReplaceKeepsContentSkip(s: string, target: string, cs: CharClass)
    requires |target| > 0 && |s| >= |target| && s[..|target|] != target
    requires forall i :: 0 <= i < |target| ==> In(target[i], cs)
    ensures Remove(Replace(s, target, ""), cs) == Remove(s, cs)
    decreases |s|, 1
  {
    ReplaceKeepsContent(s[1..], target, cs);
    var tail := Replace(s[1..], target, "");
    assert Replace(s, target, "") == [s[0]] + tail;
    assert s == [s[0]] + s[1..];
    if In(s[0], cs) {
      RemoveDropsHead(s[0], tail, cs);
      RemoveDropsHead(s[0], s[1..], cs);
    } else {
      RemoveKeepsHead(s[0], tail, cs);
      RemoveKeepsHead(s[0], s[1..], cs);
    }
  }

  /** Collapsing invents nothing: every character is `rep` or occurs in `s`. */
  lemma {:induction false} CollapseRunsDrawsFrom(s: string, cs: CharClass, rep: char)
    requires In(rep, cs)
    ensures forall i :: 0 <= i < |CollapseRuns(s, cs, rep)| ==>
              CollapseRuns(s, cs, rep)[i] == rep || CollapseRuns(s, cs, rep)[i] in s
    decreases |s|
  {
    if |s| > 0 {
      var rest := if In(s[0], cs) then TrimStart(s, cs) else s[1..];
      assert rest == s[|s| - |rest|..];
      CollapseRunsDrawsFrom(rest, cs, rep);
      var r := CollapseRuns(s, cs, rep);
      DrawsFromStep(s, rest, r, CollapseRuns(rest, cs, rep), rep);
    }
  }

  /** One step of the induction above, over plain strings: a head that is `rep` or the
      first character, followed by a tail drawn from a suffix. */
  lemma DrawsFromStep(s: string, rest: string, r: string, tail: string, rep: char)
    requires |s| > 0 && |rest| <= |s| && rest == s[|s| - |rest|..]
    requires |r| > 0 && (r[0] == rep || r[0] == s[0]) && r[1..] == tail
    requires forall i :: 0 <= i < |tail| ==> tail[i] == rep || tail[i] in rest
    ensures forall i :: 0 <= i < |r| ==> r[i] == rep || r[i] in s
  {
    forall i | 0 <= i < |r| && r[i] != rep
      ensures r[i] in s
    {
      if i > 0 {
        assert r[i] == tail[i - 1];
        var j :| 0 <= j < |rest| && rest[j] == r[i];
        assert s[|s| - |rest| + j] == r[i];
      }
    }
  }

  /** Position `i` of `s` is outside the class or starts a run of class members: it
      is the first position or follows a character outside the class. */
  predicate StartsOrOutside(s: string, cs: CharClass, i: int)
    requires 0 <= i < |s|
  {
    !In(s[i], cs) || i == 0 || !In(s[i - 1], cs)
  }

  /** A class member written as `rep`, any other character as itself. */
  function Squash(c: char, cs: CharClass, rep: char): char
  {
    if In(c, cs) then rep else c
  }

  /** The positions from `i` on, each kept (squashed) or dropped by `StartsOrOutside`. */
  function CollapseFrom(s: string, cs: CharClass, rep: char, i: nat): string
    requires i <= |s|
    decreases |s| - i
  {
    if i == |s| then []
    else (if StartsOrOutside(s, cs, i) then [Squash(s[i], cs, rep)] else []) + CollapseFrom(s, cs, rep, i + 1)
  }

  /** A position-wise reading of `re.sub("[cs]+", rep, s)`, independent of how runs are
      scanned: a character survives exactly when it is outside the class or the first
      of its run, and a surviving class member becomes `rep`. */
  function CollapseRef(s: string, cs: CharClass, rep: char): string
  {
    CollapseFrom(s, cs, rep, 0)
  }

  /** `CollapseRuns` agrees with the position-wise reference on every input: each
      maximal run is replaced, in its place, by one `rep`. */
  lemma CollapseRunsMatchesReference(s: string, cs: CharClass, rep: char)
    requires In(rep, cs)
    ensures CollapseRuns(s, cs, rep) == CollapseRef(s, cs, rep)
  {
    CollapseRunsFrom(s, cs, rep, 0);
    assert s[0..] == s;
  }

  /** From a position that is not inside a run, the scan and the reference agree. */
  lemma {:induction false} CollapseRunsFrom(s: string, cs: CharClass, rep: char, i: nat)
    requires In(rep, cs)
    requires i <= |s|
    requires i == 0 || i == |s| || !In(s[i - 1], cs) || !In(s[i], cs)
    ensures CollapseRuns(s[i..], cs, rep) == CollapseFrom(s, cs, rep, i)
    decreases |s| - i, 2
  {
    if i < |s| {
      if !In(s[i], cs) {
        CollapseRunsFromPlain(s, cs, rep, i);
      } else {
        CollapseRunsFromRun(s, cs, rep, i);
      }
    }
  }

  lemma {:induction false} CollapseRunsFromPlain(s: string, cs: CharClass, rep: char, i: nat)
    requires In(rep, cs)
    requires i < |s| && !In(s[i], cs)
    ensures CollapseRuns(s[i..], cs, rep) == CollapseFrom(s, cs, rep, i)
    decreases |s| - i, 1
  {
    CollapseRunsFrom(s, cs, rep, i + 1);
    CollapseFromPlainStep(s, cs, rep, i);
  }

  lemma {:induction false} CollapseRunsFromRun(s: string, cs: CharClass, rep: char, i: nat)
    requires In(rep, cs)
    requires i < |s| && In(s[i], cs) && (i == 0 || !In(s[i - 1], cs))
    ensures CollapseRuns(s[i..], cs, rep) == CollapseFrom(s, cs, rep, i)
    decreases |s| - i, 1
  {
    var j := RunEnd(s, cs, i);
    CollapseRefSkipsRun(s, cs, rep, i + 1, j);
    CollapseRunsFrom(s, cs, rep, j);
    CollapseFromRunStep(s, cs, rep, i, j);
  }

  /** A character outside the class is kept by the scan and by the reference. */
  lemma CollapseFromPlainStep(s: string, cs: CharClass, rep: char, i: nat)
    requires In(rep, cs)
    requires i < |s| && !In(s[i], cs)
    requires CollapseRuns(s[i + 1..], cs, rep) == CollapseFrom(s, cs, rep, i + 1)
    ensures CollapseRuns(s[i..], cs, rep) == CollapseFrom(s, cs, rep, i)
  {
    var t := s[i..];
    assert t[0] == s[i] && t[1..] == s[i + 1..];
  }

  /** A run starting at `i` and ending at `j` becomes one `rep` in both readings. */
  lemma CollapseFromRunStep(s: string, cs: CharClass, rep: char, i: nat, j: nat)
    requires In(rep, cs)
    requires i < j <= |s| && In(s[i], cs) && TrimStart(s[i..], cs) == s[j..]
    requires i == 0 || !In(s[i - 1], cs)
    requires CollapseFrom(s, cs, rep, i + 1) == CollapseFrom(s, cs, rep, j)
    requires CollapseRuns(s[j..], cs, rep) == CollapseFrom(s, cs, rep, j)
    ensures CollapseRuns(s[i..], cs, rep) == CollapseFrom(s, cs, rep, i)
  {
    var t := s[i..];
    assert t[0] == s[i];
    assert StartsOrOutside(s, cs, i) && Squash(s[i], cs, rep) == rep;
  }

  /** The run of class members starting at `i` ends at the returned position, where
      `lstrip` resumes. */
  lemma RunEnd(s: string, cs: CharClass, i: nat) returns (j: nat)
    requires i < |s| && In(s[i], cs)
    ensures i < j <= |s| && TrimStart(s[i..], cs) == s[j..]
    ensures j == |s| || !In(s[j], cs)
    ensures forall k :: i <= k < j ==> In(s[k], cs)
  {
    var t := s[i..];
    var rest := TrimStart(t, cs);
    j := |s| - |rest|;
    assert rest == s[j..];
    assert |rest| < |t| by { assert In(t[0], cs); }
    forall k | i <= k < j
      ensures In(s[k], cs)
    {
      assert s[k] == t[k - i];
    }
  }

  /** Inside a run the reference drops every position. */
  lemma {:induction false} CollapseRefSkipsRun(s: string, cs: CharClass, rep: char, m: nat, j: nat)
    requires 0 < m <= j <= |s|
    requires forall k :: m - 1 <= k < j ==> In(s[k], cs)
    ensures CollapseFrom(s, cs, rep, m) == CollapseFrom(s, cs, rep, j)
    decreases j - m
  {
    if m < j {
      assert !StartsOrOutside(s, cs, m);
      CollapseRefSkipsRun(s, cs, rep, m + 1, j);
    }
  }

  /** Two words separated by a run of class members come out separated by exactly one
      `rep`. */
  lemma CollapseRunsSeparates(w1: string, run: string, w2: string, cs: CharClass, rep: char)
    requires In(rep, cs)
    requires forall i :: 0 <= i < |w1| ==> !In(w1[i], cs)
    requires forall i :: 0 <= i < |w2| ==> !In(w2[i], cs)
    requires |run| > 0 && forall i :: 0 <= i < |run| ==> In(run[i], cs)
    ensures CollapseRuns(w1 + run + w2, cs, rep) == w1 + [rep] + w2
  {
    calc {
      CollapseRuns(w1 + run + w2, cs, rep);
    == { assert w1 + run + w2 == w1 + (run + w2); }
      CollapseRuns(w1 + (run + w2), cs, rep);
    == { CollapseRunsAfterPlain(w1, run + w2, cs, rep); }
      w1 + CollapseRuns(run + w2, cs, rep);
    == { CollapseRunsAfterRun(run, w2, cs, rep); }
      w1 + ([rep] + CollapseRuns(w2, cs, rep));
    == { CollapseRunsFixed(w2, cs, rep); }
      w1 + ([rep] + w2);
    }
  }

  /** A leading run of class members becomes one `rep`. */
  lemma CollapseRunsAfterRun(run: string, t: string, cs: CharClass, rep: char)
    requires In(rep, cs)
    requires |run| > 0 && forall i :: 0 <= i < |run| ==> In(run[i], cs)
    requires |t| > 0 ==> !In(t[0], cs)
    ensures CollapseRuns(run + t, cs, rep) == [rep] + CollapseRuns(t, cs, rep)
  {
    assert (run + t)[0] == run[0];
    TrimStartRun(run, t, cs);
  }

  /** A prefix without class members passes through unchanged. */
  lemma {:induction false} CollapseRunsAfterPlain(w: string, t: string, cs: CharClass, rep: char)
    requires In(rep, cs)
    requires forall i :: 0 <= i < |w| ==> !In(w[i], cs)
    ensures CollapseRuns(w + t, cs, rep) == w + CollapseRuns(t, cs, rep)
    decreases |w|
  {
    if |w| > 0 {
      assert (w + t)[0] == w[0] && (w + t)[1..] == w[1..] + t;
      CollapseRunsAfterPlain(w[1..], t, cs, rep);
      assert w == [w[0]] + w[1..];
    } else {
      assert w + t == t;
    }
  }

  /** A run of class members followed by a text that does not start with one is
      trimmed to that text. */
  lemma {:induction false} TrimStartRun(run: string, t: string, cs: CharClass)
    requires forall i :: 0 <= i < |run| ==> In(run[i], cs)
    requires |t| > 0 ==> !In(t[0], cs)
    ensures TrimStart(run + t, cs) == t
    decreases |run|
  {
    if |run| > 0 {
      assert (run + t)[0] == run[0] && (run + t)[1..] == run[1..] + t;
      TrimStartRun(run[1..], t, cs);
    } else {
      assert run + t == t;
    }
  }

  /** A string that already has at most one class member in a row, and only `rep`
      from the class, is left alone by `CollapseRuns`. */
  lemma {:induction false} CollapseRunsFixed(s: string, cs: CharClass, rep: char)
    requires In(rep, cs)
    requires forall i :: 0 <= i < |s| && In(s[i], cs) ==> s[i] == rep
    requires forall i :: 0 <= i < |s| - 1 ==> !(In(s[i], cs) && In(s[i + 1], cs))
    ensures CollapseRuns(s, cs, rep) == s
    decreases |s|
  {
    if |s| > 0 {
      assert forall i :: 0 <= i < |s| - 1 ==> s[1..][i] == s[i + 1];
      CollapseRunsFixed(s[1..], cs, rep);
      CollapseFixedStep(s, cs, rep);
    }
  }

  /** One step of the induction above: a fixed tail gives a fixed whole. */
  lemma CollapseFixedStep(s: string, cs: CharClass, rep: char)
    requires In(rep, cs) && |s| > 0
    requires In(s[0], cs) ==> s[0] == rep
    requires |s| > 1 ==> !(In(s[0], cs) && In(s[1], cs))
    requires CollapseRuns(s[1..], cs, rep) == s[1..]
    ensures CollapseRuns(s, cs, rep) == s
  {
    if In(s[0], cs) {
      assert TrimStart(s, cs) == s[1..] by {
        assert TrimStart(s, cs) == TrimStart(s[1..], cs);
      }
    }
  }

  lemma {:induction false} RemoveTrimStart(s: string, cs: CharClass)
    ensures Remove(TrimStart(s, cs), cs) == Remove(s, cs)
    decreases |s|
  {
    if |s| > 0 && In(s[0], cs) {
      RemoveTrimStart(s[1..], cs);
    }
  }

  lemma {:induction false} RemoveTrimEnd(s: string, cs: CharClass)
    ensures Remove(TrimEnd(s, cs), cs) == Remove(s, cs)
    decreases |s|
  {
    if |s| > 0 && In(s[|s| - 1], cs) {
      var init := s[..|s| - 1];
      RemoveTrimEnd(init, cs);
      assert s == init + [s[|s| - 1]];
      RemoveAppend(init, [s[|s| - 1]], cs);
      assert Remove([s[|s| - 1]], cs) == [];
    }
  }

  /** Stripping class members off the ends does not change what `Remove` keeps. */
  lemma RemoveStrip(s: string, cs: CharClass)
    ensures Remove(Strip(s, cs), cs) == Remove(s, cs)
  {
    RemoveTrimStart(s, cs);
    RemoveTrimEnd(TrimStart(s, cs), cs);
  }

  /** Characters of `strip(chars)`'s result come from `s`: a class `bad` absent from
      `s` stays absent, and so does any pair of neighbouring `c`s. */
  lemma StripKeepsAbsence(s: string, cs: CharClass, bad: set<char>, c: char)
    requires forall i :: 0 <= i < |s| ==> s[i] !in bad
    requires forall i :: 0 <= i < |s| - 1 ==> !(s[i] == c && s[i + 1] == c)
    ensures var r := Strip(s, cs);
            (forall i :: 0 <= i < |r| ==> r[i] !in bad)
            && (forall i :: 0 <= i < |r| - 1 ==> !(r[i] == c && r[i + 1] == c))
  {
    var r := Strip(s, cs);
    assert forall i :: 0 <= i < |r| ==> r[i] == s[LeadLen(s, cs) + i];
  }
}
