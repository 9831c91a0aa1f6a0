/**
  The LaTeX-to-Unicode rewriter of the math label: it strips dollar signs,
  rewrites `\frac{N}{D}` to `(N/D)`, applies a fixed table of symbol
  replacements in order, and finally strips the remaining braces. The
  string operations it uses (`replace`, `split`, `join`, `find`, slicing)
  are modelled with Python's semantics, including negative indices.
*/
module Latex {

  /** `pat in s`. */
  predicate Contains(s: string, pat: string)
    decreases |s|
  {
    |s| >= |pat| && (s[..|pat|] == pat || (s != [] && Contains(s[1..], pat)))
  }

  /** `pat` occurs in `s` starting at position `i`. */
  predicate OccursAt(s: string, pat: string, i: nat) {
    i + |pat| <= |s| && s[i..i + |pat|] == pat
  }

  /** `pat in s` holds exactly when `pat` occurs at some position of `s`. */
  lemma {:induction false} ContainsIffOccurs(s: string, pat: string)
    ensures Contains(s, pat) <==> exists i: nat :: OccursAt(s, pat, i)
    decreases |s|
  {
    if |s| >= |pat| {
      if s == [] {
        assert OccursAt(s, pat, 0);
      } else {
        ContainsIffOccurs(s[1..], pat);
        if Contains(s, pat) {
          if s[..|pat|] == pat {
            assert OccursAt(s, pat, 0);
          } else {
            var i: nat :| OccursAt(s[1..], pat, i);
            TailSlices(s, i, i + |pat|);
            assert OccursAt(s, pat, i + 1);
          }
        } else {
          forall i: nat ensures !OccursAt(s, pat, i) {
            if i == 0 {
              assert s[..|pat|] == s[0..|pat|];
            } else if i + |pat| <= |s| {
              TailSlices(s, i - 1, i - 1 + |pat|);
              assert !OccursAt(s[1..], pat, i - 1);
            }
          }
        }
      }
    } else {
      forall i: nat ensures !OccursAt(s, pat, i) { }
    }
  }

  /** `s.replace(pat, rep)`: every leftmost non-overlapping occurrence of `pat` is replaced. */
  function Replace(s: string, pat: string, rep: string): string
    requires pat != []
    decreases |s|
  {
    if |s| < |pat| then s
    else if s[..|pat|] == pat then rep + Replace(s[|pat|..], pat, rep)
    else [s[0]] + Replace(s[1..], pat, rep)
  }

  /** A character in neither the text nor the replacement is not in the result. */
  lemma {:induction false} ReplaceKeepsOut(s: string, pat: string, rep: string, c: char)
    requires pat != [] && c !in s && c !in rep
    ensures c !in Replace(s, pat, rep)
    decreases |s|
  {
    if |s| >= |pat| {
      if s[..|pat|] == pat {
        ReplaceKeepsOut(s[|pat|..], pat, rep, c);
      } else {
        ReplaceKeepsOut(s[1..], pat, rep, c);
      }
    }
  }

  /** Replacing a single character by nothing removes every occurrence of it. */
  lemma {:induction false} ReplaceRemovesChar(s: string, c: char)
    ensures c !in Replace(s, [c], "")
    decreases |s|
  {
    if s != [] {
      ReplaceRemovesChar(s[1..], c);
      if s[0] != c {
        assert Replace(s, [c], "") == [s[0]] + Replace(s[1..], [c], "");
      }
    }
  }

  /** Without an occurrence of `pat`, replacing changes nothing. */
  lemma {:induction false} ReplaceAbsent(s: string, pat: string, rep: string)
    requires pat != [] && !Contains(s, pat)
    ensures Replace(s, pat, rep) == s
    decreases |s|
  {
    if |s| >= |pat| {
      ReplaceAbsent(s[1..], pat, rep);
      assert s == [s[0]] + s[1..];
    }
  }

  /** `s.split(sep)`: the pieces between leftmost non-overlapping occurrences of `sep`. */
  function Split(s: string, sep: string): (parts: seq<string>)
    requires sep != []
    ensures |parts| >= 1
    decreases |s|
  {
    if |s| < |sep| then [s]
    else if s[..|sep|] == sep then [""] + Split(s[|sep|..], sep)
    else
      var t := Split(s[1..], sep);
      [[s[0]] + t[0]] + t[1..]
  }

  /** `sep.join(parts)`. */
  function Join(parts: seq<string>, sep: string): string
    requires |parts| >= 1
  {
    if |parts| == 1 then parts[0] else parts[0] + sep + Join(parts[1..], sep)
  }

  /** Splitting and joining back with the same separator gives the original text. */
  lemma {:induction false} SplitJoin(s: string, sep: string)
    requires sep != []
    ensures Join(Split(s, sep), sep) == s
    decreases |s|
  {
    if |s| >= |sep| {
      if s[..|sep|] == sep {
        var tail := s[|sep|..];
        var rest := Split(tail, sep);
        SplitJoin(tail, sep);
        SplitAtSeparator(s, sep);
        JoinCons("", rest, sep);
        assert s == sep + tail;
      } else {
        var tail := s[1..];
        var t := Split(tail, sep);
        SplitJoin(tail, sep);
        SplitPastChar(s, sep);
        JoinHead(s[0], t, sep);
        assert s == [s[0]] + tail;
      }
    }
  }

  /** `split` cuts at every occurrence: no piece holds the separator. */
  lemma {:induction false} SplitPiecesNoSeparator(s: string, sep: string)
    requires sep != []
    ensures forall k :: 0 <= k < |Split(s, sep)| ==> !Contains(Split(s, sep)[k], sep)
    decreases |s|
  {
    var parts := Split(s, sep);
    if |s| >= |sep| {
      var rest := if s[..|sep|] == sep then s[|sep|..] else s[1..];
      SplitPiecesNoSeparator(rest, sep);
      SplitFirstNoSeparator(s, sep);
      if s[..|sep|] == sep {
        SplitAtSeparator(s, sep);
        assert parts[1..] == Split(rest, sep);
      } else {
        SplitPastChar(s, sep);
        assert parts[1..] == Split(rest, sep)[1..];
      }
      forall k | 1 <= k < |parts| ensures !Contains(parts[k], sep) {
        if s[..|sep|] == sep {
          assert parts[k] == Split(rest, sep)[k - 1];
        } else {
          assert parts[k] == Split(rest, sep)[k];
        }
      }
    }
  }

  /** At an occurrence of `sep`, an empty piece ends. */
  lemma SplitAtSeparator(s: string, sep: string)
    requires sep != [] && |s| >= |sep| && s[..|sep|] == sep
    ensures Split(s, sep) == [""] + Split(s[|sep|..], sep)
  {
  }

  /** Elsewhere, the first character joins the first piece of the rest. */
  lemma SplitPastChar(s: string, sep: string)
    requires sep != [] && |s| >= |sep| && s[..|sep|] != sep
    ensures var t := Split(s[1..], sep); Split(s, sep) == [[s[0]] + t[0]] + t[1..]
  {
  }

  /** `sep.join([a] + rest)` is `a + sep + sep.join(rest)`. */
  lemma JoinCons(a: string, rest: seq<string>, sep: string)
    requires |rest| >= 1
    ensures Join([a] + rest, sep) == a + sep + Join(rest, sep)
  {
    assert ([a] + rest)[1..] == rest;
  }

  /** Prefixing a character to the first piece prefixes it to the join. */
  lemma JoinHead(c: char, t: seq<string>, sep: string)
    requires |t| >= 1
    ensures Join([[c] + t[0]] + t[1..], sep) == [c] + Join(t, sep)
  {
    var r := [[c] + t[0]] + t[1..];
    if |t| > 1 {
      assert r[1..] == t[1..];
      assert Join(r, sep) == ([c] + t[0]) + sep + Join(t[1..], sep);
      assert Join(t, sep) == t[0] + sep + Join(t[1..], sep);
    } else {
      assert r == [[c] + t[0]];
    }
  }

  /** The first piece is the text before the first occurrence of `sep`. */
  lemma {:induction false} SplitFirstPrefix(s: string, sep: string)
    requires sep != []
    ensures var p := Split(s, sep)[0];
            |p| <= |s| && s[..|p|] == p &&
            (|Split(s, sep)| > 1 ==> |p| + |sep| <= |s| && s[|p|..|p| + |sep|] == sep)
    decreases |s|
  {
    if |s| >= |sep| && s[..|sep|] != sep {
      var tail := s[1..];
      var t := Split(tail, sep);
      SplitFirstPrefix(tail, sep);
      var q := t[0];
      var p := [s[0]] + q;
      SplitPastChar(s, sep);
      assert Split(s, sep) == [p] + t[1..];
      TailSlices(s, |q|, |q| + |sep|);
      assert s[..|p|] == [s[0]] + tail[..|q|];
    } else if |s| >= |sep| {
      SplitAtSeparator(s, sep);
    }
  }

  /** Slicing the tail is slicing the text one position further on. */
  lemma TailSlices(s: string, i: nat, j: nat)
    requires s != [] && i <= j
    ensures j < |s| ==> s[1..][i..j] == s[i + 1..j + 1]
    ensures i < |s| ==> s[..i + 1] == [s[0]] + s[1..][..i]
  {
  }

  /** The first piece holds no occurrence of `sep`. */
  lemma {:induction false} SplitFirstNoSeparator(s: string, sep: string)
    requires sep != []
    ensures !Contains(Split(s, sep)[0], sep)
    decreases |s|
  {
    if |s| >= |sep| && s[..|sep|] != sep {
      var t := Split(s[1..], sep);
      SplitFirstNoSeparator(s[1..], sep);
      SplitFirstPrefix(s, sep);
      var p := [s[0]] + t[0];
      assert Split(s, sep)[0] == p;
      assert p[1..] == t[0];
      if |p| >= |sep| {
        assert p[..|sep|] == s[..|sep|];
      }
    } else if |s| >= |sep| {
      assert Split(s, sep)[0] == "";
    }
  }

  /** Without an occurrence of `sep` the text is one piece. */
  lemma {:induction false} SplitAbsent(s: string, sep: string)
    requires sep != [] && !Contains(s, sep)
    ensures Split(s, sep) == [s]
    decreases |s|
  {
    if |s| >= |sep| {
      SplitAbsent(s[1..], sep);
      assert s == [s[0]] + s[1..];
    }
  }

  /** A character absent from the text is absent from every piece. */
  lemma {:induction false} SplitKeepsOut(s: string, sep: string, c: char)
    requires sep != [] && c !in s
    ensures forall k :: 0 <= k < |Split(s, sep)| ==> c !in Split(s, sep)[k]
    decreases |s|
  {
    if |s| >= |sep| {
      if s[..|sep|] == sep {
        SplitKeepsOut(s[|sep|..], sep, c);
      } else {
        SplitKeepsOut(s[1..], sep, c);
      }
    }
  }

  /** `"".join(parts)`. */
  function Concat(parts: seq<string>): string {
    if parts == [] then "" else parts[0] + Concat(parts[1..])
  }

  lemma {:induction false} ConcatKeepsOut(parts: seq<string>, c: char)
    requires forall k :: 0 <= k < |parts| ==> c !in parts[k]
    ensures c !in Concat(parts)
  {
    if parts != [] {
      ConcatKeepsOut(parts[1..], c);
    }
  }

  /** The first index `>= k` holding `c`, or -1. */
  function FindFrom(s: string, c: char, k: nat): (i: int)
    requires k <= |s|
    ensures i == -1 || (k <= i < |s| && s[i] == c)
    ensures forall j :: k <= j < |s| && (i == -1 || j < i) ==> s[j] != c
    decreases |s| - k
  {
    if k == |s| then -1 else if s[k] == c then k else FindFrom(s, c, k + 1)
  }

  /** A start or slice index after Python's adjustment: negative counts from the end, then clamped to `[0, n]`. */
  function Clamp(x: int, n: nat): (r: nat)
    ensures r <= n
    ensures 0 <= x <= n ==> r == x
    ensures x < 0 ==> r == (if x + n < 0 then 0 else x + n)
    ensures x > n ==> r == n
  {
    if x < 0 then (if x + n < 0 then 0 else x + n) else if x > n then n else x
  }

  /**
    `s.find(c, start)` for a one-character needle: the first position at or
    after the adjusted start (a negative start counts from the end, floored at
    0) that holds `c`, or -1 when there is none.
  */
  function Find(s: string, c: char, start: int): (i: int)
    ensures -1 <= i < |s|
    ensures i >= 0 ==> s[i] == c
    ensures var k := Clamp(start, |s|); i >= 0 ==> k <= i && forall j :: k <= j < i ==> s[j] != c
    ensures var k := Clamp(start, |s|); i == -1 <==> forall j :: k <= j < |s| ==> s[j] != c
  {
    var k := if start < 0 then Clamp(start, |s|) else start;
    if k > |s| then -1 else FindFrom(s, c, k)
  }

  /** `s[i:j]`. */
  function Slice(s: string, i: int, j: int): (r: string)
    ensures forall c :: c in r ==> c in s
    ensures |r| == if Clamp(i, |s|) < Clamp(j, |s|) then Clamp(j, |s|) - Clamp(i, |s|) else 0
    ensures forall k :: 0 <= k < |r| ==> r[k] == s[Clamp(i, |s|) + k]
  {
    var a := Clamp(i, |s|);
    var b := Clamp(j, |s|);
    if a < b then s[a..b] else ""
  }

  const FracOpen := "\\frac{"

  /**
    The rewriting of one piece after a `\frac{`: numerator up to the first
    `}`, denominator between the next `{` and the `}` after it, the rest kept.
    Missing braces give -1 from `find`, which the slices then read as "from
    the end", exactly as the source computes them.
  */
  function ConvertPart(p: string): string {
    var numEnd := Find(p, '}', 0);
    var numerator := Slice(p, 0, numEnd);
    var denomStart := Find(p, '{', numEnd);
    var denomEnd := Find(p, '}', denomStart);
    var denominator := Slice(p, denomStart + 1, denomEnd);
    var rest := Slice(p, denomEnd + 1, |p|);
    "(" + numerator + "/" + denominator + ")" + rest
  }

  /** `find` returns the first position from `k` on that holds `c`. */
  lemma {:induction false} FindFromFirst(s: string, c: char, k: nat, i: nat)
    requires k <= i < |s| && s[i] == c
    requires forall j :: k <= j < i ==> s[j] != c
    ensures FindFrom(s, c, k) == i
    decreases i - k
  {
    if k < i {
      FindFromFirst(s, c, k + 1, i);
    }
  }

  /** Where the pieces of `N}{D}rest` sit. */
  lemma FractionLayout(p: string, n: string, d: string, rest: string)
    requires p == n + "}{" + d + "}" + rest
    ensures |p| == |n| + |d| + 3 + |rest|
    ensures p[..|n|] == n && p[|n|] == '}' && p[|n| + 1] == '{'
    ensures p[|n| + 2..|n| + 2 + |d|] == d && p[|n| + 2 + |d|] == '}' && p[|n| + 3 + |d|..] == rest
    ensures forall j :: 0 <= j < |n| ==> p[j] == n[j]
    ensures forall j :: 0 <= j < |d| ==> p[|n| + 2 + j] == d[j]
  {
  }

  /** A well-formed `N}{D}rest` becomes `(N/D)rest`. */
  lemma WellFormedFraction(p: string, n: string, d: string, rest: string)
    requires p == n + "}{" + d + "}" + rest && '}' !in n && '}' !in d
    ensures ConvertPart(p) == "(" + n + "/" + d + ")" + rest
  {
    NumeratorEnd(p, n, d, rest);
    DenominatorStart(p, n, d, rest);
    DenominatorEnd(p, n, d, rest);
    FractionPieces(p, n, d, rest);
    ConvertPartAt(p, |n|, |n| + 1, |n| + 2 + |d|);
  }

  /** `ConvertPart` once the three `find` results are known. */
  lemma ConvertPartAt(p: string, numEnd: int, denomStart: int, denomEnd: int)
    requires Find(p, '}', 0) == numEnd
    requires Find(p, '{', numEnd) == denomStart
    requires Find(p, '}', denomStart) == denomEnd
    ensures ConvertPart(p) ==
            "(" + Slice(p, 0, numEnd) + "/" + Slice(p, denomStart + 1, denomEnd) + ")" + Slice(p, denomEnd + 1, |p|)
  {
  }

  /** From an in-range start, `find` is the search from that start. */
  lemma FindInRange(s: string, c: char, k: nat)
    requires k <= |s|
    ensures Find(s, c, k) == FindFrom(s, c, k)
  {
  }

  /** With in-range bounds, a slice is the subsequence between them. */
  lemma SliceInRange(s: string, i: nat, j: nat)
    requires i <= j <= |s|
    ensures Slice(s, i, j) == s[i..j]
  {
  }

  /** The first `}` of `N}{D}rest` closes the numerator. */
  lemma NumeratorEnd(p: string, n: string, d: string, rest: string)
    requires p == n + "}{" + d + "}" + rest && '}' !in n
    ensures Find(p, '}', 0) == |n|
  {
    FractionLayout(p, n, d, rest);
    FindFromFirst(p, '}', 0, |n|) by {
      forall j | 0 <= j < |n| ensures p[j] != '}' {
        assert p[j] == n[j];
      }
    }
    FindInRange(p, '}', 0);
  }

  /** The `{` right after the numerator opens the denominator. */
  lemma DenominatorStart(p: string, n: string, d: string, rest: string)
    requires p == n + "}{" + d + "}" + rest
    ensures Find(p, '{', |n|) == |n| + 1
  {
    FractionLayout(p, n, d, rest);
    FindFromFirst(p, '{', |n|, |n| + 1);
    FindInRange(p, '{', |n|);
  }

  /** The first `}` after the `{` of `N}{D}` closes the denominator. */
  lemma DenominatorEnd(p: string, n: string, d: string, rest: string)
    requires p == n + "}{" + d + "}" + rest && '}' !in d
    ensures Find(p, '}', |n| + 1) == |n| + 2 + |d|
  {
    FractionLayout(p, n, d, rest);
    FindFromFirst(p, '}', |n| + 1, |n| + 2 + |d|) by {
      forall j | |n| + 1 <= j < |n| + 2 + |d| ensures p[j] != '}' {
        if j > |n| + 1 {
          assert p[j] == d[j - |n| - 2];
        }
      }
    }
    FindInRange(p, '}', |n| + 1);
  }

  /** The slices between the braces are the numerator, the denominator and the rest. */
  lemma FractionPieces(p: string, n: string, d: string, rest: string)
    requires p == n + "}{" + d + "}" + rest
    ensures Slice(p, 0, |n|) == n
    ensures Slice(p, |n| + 2, |n| + 2 + |d|) == d
    ensures Slice(p, |n| + 3 + |d|, |p|) == rest
  {
    FractionLayout(p, n, d, rest);
    SliceInRange(p, 0, |n|);
    SliceInRange(p, |n| + 2, |n| + 2 + |d|);
    SliceInRange(p, |n| + 3 + |d|, |p|);
  }

  /** Every piece after the first, rewritten. */
  function ConvertParts(parts: seq<string>): (r: seq<string>)
    ensures |r| == |parts|
    ensures |parts| > 0 ==> r[0] == parts[0]
  {
    seq(|parts|, k requires 0 <= k < |parts| => if k == 0 then parts[0] else ConvertPart(parts[k]))
  }

  /** The fraction step: split at `\frac{`, rewrite every piece but the first, join without separator. */
  function ConvertFractions(s: string): string {
    Concat(ConvertParts(Split(s, FracOpen)))
  }

  /** The fraction step leaves the text before the first `\frac{` in place. */
  lemma FractionPrefixUntouched(s: string)
    ensures var p := Split(s, FracOpen)[0];
            |p| <= |s| && s[..|p|] == p && !Contains(p, FracOpen) &&
            |p| <= |ConvertFractions(s)| && ConvertFractions(s)[..|p|] == p
  {
    SplitFirstPrefix(s, FracOpen);
    SplitFirstNoSeparator(s, FracOpen);
    var parts := ConvertParts(Split(s, FracOpen));
    assert Concat(parts) == parts[0] + Concat(parts[1..]);
  }

  /** Without a `\frac{`, the fraction step changes nothing. */
  lemma FractionsAbsent(s: string)
    requires !Contains(s, FracOpen)
    ensures ConvertFractions(s) == s
  {
    SplitAbsent(s, FracOpen);
    assert ConvertParts([s]) == [s];
    assert Concat([s]) == s + Concat([]);
  }

  /** The fraction step adds no character but `(`, `/` and `)`. */
  lemma FractionsKeepOut(s: string, c: char)
    requires c !in s && c != '(' && c != '/' && c != ')'
    ensures c !in ConvertFractions(s)
  {
    var parts := Split(s, FracOpen);
    SplitKeepsOut(s, FracOpen, c);
    var converted := ConvertParts(parts);
    forall k | 0 <= k < |converted| ensures c !in converted[k] {
      if k > 0 {
        ConvertPartKeepsOut(parts[k], c);
      }
    }
    ConcatKeepsOut(converted, c);
  }

  /** Rewriting one piece adds no character but `(`, `/` and `)`. */
  lemma ConvertPartKeepsOut(p: string, c: char)
    requires c !in p && c != '(' && c != '/' && c != ')'
    ensures c !in ConvertPart(p)
  {
    var numEnd := Find(p, '}', 0);
    var denomStart := Find(p, '{', numEnd);
    var denomEnd := Find(p, '}', denomStart);
    var numerator := Slice(p, 0, numEnd);
    var denominator := Slice(p, denomStart + 1, denomEnd);
    var rest := Slice(p, denomEnd + 1, |p|);
    assert c !in numerator && c !in denominator && c !in rest;
    assert ConvertPart(p) == "(" + numerator + "/" + denominator + ")" + rest;
  }

  /** The symbol table, in the order the source lists (and applies) it. */
  const Table: seq<(string, string)> := [
    ("\\alpha", "α"), ("\\beta", "β"), ("\\gamma", "γ"),
    ("\\pm", "±"), ("\\times", "×"), ("\\div", "÷"),
    ("\\leq", "≤"), ("\\geq", "≥"), ("\\neq", "≠"),
    ("\\approx", "≈"), ("\\sqrt", "√"), ("\\infty", "∞"),
    ("^2", "²"), ("^3", "³"), ("^n", "ⁿ"),
    ("_1", "₁"), ("_2", "₂"), ("_3", "₃"),
    ("\\rightarrow", "→"), ("\\leftarrow", "←"),
    ("\\sum", "Σ"), ("\\prod", "∏"),
    ("\\frac", "/")
  ]

  /** Every key of a table is non-empty. */
  predicate KeysNonEmpty(t: seq<(string, string)>) {
    forall k :: 0 <= k < |t| ==> t[k].0 != []
  }

  /** The entries of `t` applied in order, each replacing all its occurrences. */
  function ApplyTable(s: string, t: seq<(string, string)>): string
    requires KeysNonEmpty(t)
  {
    if t == [] then s
    else
      var n := |t| - 1;
      Replace(ApplyTable(s, t[..n]), t[n].0, t[n].1)
  }

  /** A character absent from the text and from every replacement stays absent. */
  lemma {:induction false} ApplyTableKeepsOut(s: string, t: seq<(string, string)>, c: char)
    requires KeysNonEmpty(t) && c !in s
    requires forall k :: 0 <= k < |t| ==> c !in t[k].1
    ensures c !in ApplyTable(s, t)
  {
    if t != [] {
      var n := |t| - 1;
      ApplyTableKeepsOut(s, t[..n], c);
      ReplaceKeepsOut(ApplyTable(s, t[..n]), t[n].0, t[n].1, c);
    }
  }

  /** Text containing no key of the table is left as it is. */
  lemma {:induction false} ApplyTableAbsent(s: string, t: seq<(string, string)>)
    requires KeysNonEmpty(t)
    requires forall k :: 0 <= k < |t| ==> !Contains(s, t[k].0)
    ensures ApplyTable(s, t) == s
  {
    if t != [] {
      var n := |t| - 1;
      ApplyTableAbsent(s, t[..n]);
      ReplaceAbsent(s, t[n].0, t[n].1);
    }
  }

  /** The whole rewriting of `_convert_to_unicode`. */
  function Converted(latex: string): string {
    var noDollars := Replace(latex, "$", "");
    var fractions := if Contains(noDollars, "\\frac") then ConvertFractions(noDollars) else noDollars;
    var symbols := ApplyTable(fractions, Table);
    Replace(Replace(symbols, "{", ""), "}", "")
  }

  /** The output contains no `$`, `{` or `}`. */
  lemma ConvertedHasNoDelimiters(latex: string)
    ensures '$' !in Converted(latex) && '{' !in Converted(latex) && '}' !in Converted(latex)
  {
    var noDollars := Replace(latex, "$", "");
    ReplaceRemovesChar(latex, '$');
    var fractions := if Contains(noDollars, "\\frac") then ConvertFractions(noDollars) else noDollars;
    if Contains(noDollars, "\\frac") {
      FractionsKeepOut(noDollars, '$');
    }
    assert '$' !in fractions;
    var symbols := ApplyTable(fractions, Table);
    TableKeepsOut(fractions, '$');
    BracesRemoved(symbols);
  }

  /** The table introduces no `$`, `{` or `}`. */
  lemma TableKeepsOut(s: string, c: char)
    requires c !in s && (c == '$' || c == '{' || c == '}')
    ensures c !in ApplyTable(s, Table)
  {
    TableShape();
    ApplyTableKeepsOut(s, Table, c);
  }

  /** Removing braces leaves no brace and adds no `$`. */
  lemma BracesRemoved(s: string)
    requires '$' !in s
    ensures var r := Replace(Replace(s, "{", ""), "}", "");
            '$' !in r && '{' !in r && '}' !in r
  {
    ReplaceKeepsOut(s, "{", "", '$');
    ReplaceRemovesChar(s, '{');
    var noOpen := Replace(s, "{", "");
    ReplaceKeepsOut(noOpen, "}", "", '$');
    ReplaceKeepsOut(noOpen, "}", "", '{');
    ReplaceRemovesChar(noOpen, '}');
  }

  /** Text without `$`, braces and table keys is returned unchanged. */
  lemma ConvertedIdentity(latex: string)
    requires '$' !in latex && '{' !in latex && '}' !in latex
    requires forall k :: 0 <= k < |Table| ==> !Contains(latex, Table[k].0)
    ensures Converted(latex) == latex
  {
    ReplaceAbsent(latex, "$", "") by { NotContainsByChar(latex, "$", 0); }
    assert !Contains(latex, "\\frac") by { assert Table[22].0 == "\\frac"; }
    ApplyTableAbsent(latex, Table);
    ReplaceAbsent(latex, "{", "") by { NotContainsByChar(latex, "{", 0); }
    ReplaceAbsent(latex, "}", "") by { NotContainsByChar(latex, "}", 0); }
  }

  /** A pattern with a character the text lacks does not occur in it. */
  lemma {:induction false} NotContainsByChar(s: string, pat: string, j: nat)
    requires j < |pat| && pat[j] !in s
    ensures !Contains(s, pat)
    decreases |s|
  {
    if |s| >= |pat| {
      assert s[..|pat|] != pat by {
        assert s[j] in s;
      }
      NotContainsByChar(s[1..], pat, j);
    }
  }

  /** A table whose keys all start with a character the text lacks leaves it alone. */
  lemma NoKeyStartsIn(s: string, t: seq<(string, string)>)
    requires KeysNonEmpty(t)
    requires forall k :: 0 <= k < |t| ==> t[k].0[0] !in s
    ensures ApplyTable(s, t) == s
  {
    forall k | 0 <= k < |t| ensures !Contains(s, t[k].0) {
      NotContainsByChar(s, t[k].0, 0);
    }
    ApplyTableAbsent(s, t);
  }

  /**
    The rewriting as the source runs it: the string steps in sequence, a loop
    over the pieces after the first `\frac{`, and a loop over the table.
  */
  method ConvertToUnicode(latex: string) returns (result: string)
    ensures result == Converted(latex)
    ensures '$' !in result && '{' !in result && '}' !in result
  {
    result := Replace(latex, "$", "");
    if Contains(result, "\\frac") {
      result := RewriteFractions(result);
    }
    result := ApplyReplacements(result);
    result := Replace(Replace(result, "{", ""), "}", "");
    ConvertedHasNoDelimiters(latex);
  }

  /** The loop `for i in range(1, len(parts))` over the pieces after each `\frac{`. */
  method RewriteFractions(s: string) returns (result: string)
    ensures result == ConvertFractions(s)
  {
    var parts := Split(s, FracOpen);
    ghost var pieces := parts;
    for i := 1 to |parts|
      invariant |parts| == |pieces| && parts[0] == pieces[0]
      invariant forall j :: 0 < j < i ==> parts[j] == ConvertPart(pieces[j])
      invariant forall j :: i <= j < |parts| ==> parts[j] == pieces[j]
    {
      parts := parts[i := ConvertPart(parts[i])];
    }
    assert parts == ConvertParts(pieces);
    result := Concat(parts);
  }

  /** The loop over the replacement table, in order. */
  method ApplyReplacements(s: string) returns (result: string)
    ensures result == ApplyTable(s, Table)
  {
    TableShape();
    result := ApplyEntries(s, Table);
  }

  /** The loop over the replacement dictionary: each entry, in insertion order, replaces all its occurrences in turn. */
  method ApplyEntries(s: string, table: seq<(string, string)>) returns (result: string)
    requires KeysNonEmpty(table)
    ensures result == ApplyTable(s, table)
  {
    result := s;
    for k := 0 to |table|
      invariant result == ApplyTable(s, table[..k])
    {
      assert table[..k + 1][..k] == table[..k];
      result := Replace(result, table[k].0, table[k].1);
    }
    assert table[..|table|] == table;
  }

  /** Every key of the table has at least two characters and starts with `\`, `^` or `_`. */
  lemma TableShape()
    ensures |Table| == 23 && KeysNonEmpty(Table)
    ensures forall k :: 0 <= k < |Table| ==> |Table[k].0| >= 2 && Table[k].0[0] in "\\^_"
    ensures forall k :: 0 <= k < |Table| ==> '$' !in Table[k].1 && '{' !in Table[k].1 && '}' !in Table[k].1
  {
  }

  /** Text without `\`, `^` and `_` is not changed by any part of the table. */
  lemma TableLeavesPlainText(s: string, m: nat)
    requires m <= |Table| && '\\' !in s && '^' !in s && '_' !in s
    ensures ApplyTable(s, Table[m..]) == s
  {
    TableShape();
    NoKeyStartsIn(s, Table[m..]);
  }

  /** Applying a table splits at any point into applying its two halves. */
  lemma {:induction false} ApplyTableSplit(s: string, t: seq<(string, string)>, m: nat)
    requires KeysNonEmpty(t) && m <= |t|
    ensures ApplyTable(s, t) == ApplyTable(ApplyTable(s, t[..m]), t[m..])
    decreases |t|
  {
    if |t| > m {
      var n := |t| - 1;
      assert t[..n][..m] == t[..m];
      assert t[m..][..|t[m..]| - 1] == t[..n][m..];
      ApplyTableSplit(s, t[..n], m);
    } else {
      assert t[..m] == t;
      assert t[m..] == [];
    }
  }

  /** For text without `$` and `\frac`, only the table and the brace removal act. */
  lemma TableOnly(s: string)
    requires '$' !in s && !Contains(s, "\\frac")
    ensures Converted(s) == Replace(Replace(ApplyTable(s, Table), "{", ""), "}", "")
  {
    ReplaceAbsent(s, "$", "") by { NotContainsByChar(s, "$", 0); }
  }

  /** `\alpha` becomes α. */
  lemma AlphaExample(s: string)
    requires s == "\\alpha"
    ensures Converted(s) == "α"
  {
    NotContainsByChar(s, "\\frac", 1);
    TableOnly(s);
    AlphaTable(s);
    NoBraces("α");
  }

  lemma AlphaTable(s: string)
    requires s == "\\alpha"
    ensures ApplyTable(s, Table) == "α"
  {
    TableShape();
    ApplyTableSplit(s, Table, 1);
    assert Table[..1] == [("\\alpha", "α")];
    assert ApplyTable(s, Table[..1]) == "α" by {
      assert ApplyTable(s, []) == s;
    }
    TableLeavesPlainText("α", 1);
  }

  /** `x^2` becomes x². */
  lemma SquareExample(s: string)
    requires s == "x^2"
    ensures Converted(s) == "x²"
  {
    NotContainsByChar(s, "\\frac", 0);
    TableOnly(s);
    SquareTable(s);
    NoBraces("x²");
  }

  lemma SquareTable(s: string)
    requires s == "x^2"
    ensures ApplyTable(s, Table) == "x²"
  {
    TableShape();
    ApplyTableSplit(s, Table, 13);
    assert ApplyTable(s, Table[..13]) == "x²" by {
      SquarePrefix(s);
    }
    TableLeavesPlainText("x²", 13);
  }

  lemma SquarePrefix(s: string)
    requires s == "x^2"
    ensures ApplyTable(s, Table[..13]) == "x²"
  {
    TableShape();
    assert ApplyTable(s, Table[..12]) == s by {
      NoKeyStartsIn(s, Table[..12]);
    }
    assert Table[..13][..12] == Table[..12] && Table[12] == ("^2", "²");
    assert Replace(s, "^2", "²") == "x²" by {
      assert Replace("^2", "^2", "²") == "²" + Replace("", "^2", "²");
    }
  }

  /** A `\frac` without a brace is rewritten to `/` by the table. */
  lemma BareFracExample(s: string)
    requires s == "\\frac12"
    ensures Converted(s) == "/12"
  {
    ReplaceAbsent(s, "$", "") by { NotContainsByChar(s, "$", 0); }
    assert s[..5] == "\\frac";
    NotContainsByChar(s, FracOpen, 5);
    FractionsAbsent(s);
    BareFracTable(s);
    NoBraces("/12");
  }

  /**
    The last entry of the table: when no earlier key occurs, the table turns
    every `\frac` (one without a following `{` included) into `/`.
  */
  lemma BareFracRule(s: string)
    requires forall k :: 0 <= k < 22 ==> !Contains(s, Table[k].0)
    ensures ApplyTable(s, Table) == Replace(s, "\\frac", "/")
  {
    TableShape();
    var head := Table[..22];
    assert forall k :: 0 <= k < |head| ==> head[k] == Table[k];
    ApplyTableAbsent(s, head);
    assert Table[..22] == head && Table[22] == ("\\frac", "/");
  }

  lemma BareFracTable(s: string)
    requires s == "\\frac12"
    ensures ApplyTable(s, Table) == "/12"
  {
    NoEarlierKeyInBareFrac(s);
    BareFracRule(s);
    assert Replace(s, "\\frac", "/") == "/12";
  }

  /** No key before `\frac` occurs in `\frac12`. */
  lemma NoEarlierKeyInBareFrac(s: string)
    requires s == "\\frac12"
    ensures forall k :: 0 <= k < 22 ==> !Contains(s, Table[k].0)
  {
    TableShape();
    var w := "lbgptdlgnpsi^^^___ilsp";
    forall k | 0 <= k < 22 ensures !Contains(s, Table[k].0) {
      assert w[k] in Table[k].0 && w[k] !in s;
      var j :| 0 <= j < |Table[k].0| && Table[k].0[j] == w[k];
      NotContainsByChar(s, Table[k].0, j);
    }
  }

  /** `$\frac{1}{2}$` becomes (1/2). */
  lemma FractionExample(s: string)
    requires s == "$\\frac{1}{2}$"
    ensures Converted(s) == "(1/2)"
  {
    var inner, half := "\\frac{1}{2}", "(1/2)";
    RemoveDollars(s, inner);
    FracAtStart(inner);
    FractionOfOneHalf(inner);
    PlainHalf(half);
    FractionOnly(s, inner, half);
  }

  lemma FracAtStart(inner: string)
    requires inner == "\\frac{1}{2}"
    ensures Contains(inner, "\\frac")
  {
    assert inner[..5] == "\\frac";
  }

  lemma PlainHalf(half: string)
    requires half == "(1/2)"
    ensures '\\' !in half && '^' !in half && '_' !in half && '{' !in half && '}' !in half
  {
  }

  /** Text whose only markup is its dollars and fractions becomes the rewritten fractions. */
  lemma FractionOnly(latex: string, inner: string, out: string)
    requires Replace(latex, "$", "") == inner && Contains(inner, "\\frac") && ConvertFractions(inner) == out
    requires '\\' !in out && '^' !in out && '_' !in out && '{' !in out && '}' !in out
    ensures Converted(latex) == out
  {
    TableLeavesPlainText(out, 0);
    assert Table[0..] == Table;
    NoBraces(out);
  }

  lemma RemoveDollars(s: string, inner: string)
    requires inner == "\\frac{1}{2}" && s == "$" + inner + "$"
    ensures Replace(s, "$", "") == inner
  {
    assert Replace("$", "$", "") == "" + Replace("", "$", "");
    ReplacePrefixAbsent(inner, "$", "$", "");
    assert s[1..] == inner + "$";
    assert s[..1] == "$";
  }

  lemma FractionOfOneHalf(inner: string)
    requires inner == "\\frac{1}{2}"
    ensures ConvertFractions(inner) == "(1/2)"
  {
    var piece, half := "1}{2}", "(1/2)";
    SplitOneHalf(inner, piece);
    ConvertOneHalf(piece);
    SingleFraction(inner, piece, half);
  }

  /** A text consisting of one well-formed `\frac{N}{D}rest` has its fraction rewritten to `(N/D)rest`. */
  lemma FractionText(n: string, d: string, rest: string)
    requires '}' !in n && '}' !in d
    requires !Contains(n + "}{" + d + "}" + rest, FracOpen)
    ensures ConvertFractions(FracOpen + n + "}{" + d + "}" + rest) == "(" + n + "/" + d + ")" + rest
  {
    var p := n + "}{" + d + "}" + rest;
    assert FracOpen + n + "}{" + d + "}" + rest == FracOpen + p;
    WellFormedFraction(p, n, d, rest);
    OneFraction(p, "(" + n + "/" + d + ")" + rest);
  }

  /** `\frac{` followed by one piece without another `\frac{` becomes that piece rewritten. */
  lemma OneFraction(p: string, out: string)
    requires !Contains(p, FracOpen) && ConvertPart(p) == out
    ensures ConvertFractions(FracOpen + p) == out
  {
    var s := FracOpen + p;
    assert s[..|FracOpen|] == FracOpen && s[|FracOpen|..] == p;
    SplitAtSeparator(s, FracOpen);
    SplitAbsent(p, FracOpen);
    SingleFraction(s, p, out);
  }

  /** No `$`, backslash, `^`, `_` or brace: nothing any step of the conversion looks for. */
  predicate Plain(x: string) {
    '$' !in x && '\\' !in x && '^' !in x && '_' !in x && '{' !in x && '}' !in x
  }

  /** The whole conversion turns `\frac{N}{D}rest` into `(N/D)rest` for plain N, D and rest. */
  lemma FractionConverted(n: string, d: string, rest: string)
    requires Plain(n) && Plain(d) && Plain(rest)
    ensures Converted(FracOpen + n + "}{" + d + "}" + rest) == "(" + n + "/" + d + ")" + rest
  {
    var p := n + "}{" + d + "}" + rest;
    var s := FracOpen + p;
    var out := "(" + n + "/" + d + ")" + rest;
    assert FracOpen + n + "}{" + d + "}" + rest == s;
    PlainPieces(n, d, rest);
    NotContainsByChar(p, FracOpen, 0);
    FractionText(n, d, rest);
    FracOpenPrefix(p);
    FractionOnly(s, s, out);
  }

  /** The piece and its rewriting hold none of the characters the later steps act on. */
  lemma PlainPieces(n: string, d: string, rest: string)
    requires Plain(n) && Plain(d) && Plain(rest)
    ensures var p := n + "}{" + d + "}" + rest; '\\' !in p && '$' !in p
    ensures var out := "(" + n + "/" + d + ")" + rest;
            '\\' !in out && '^' !in out && '_' !in out && '{' !in out && '}' !in out
  {
  }

  /** Text starting with `\frac{` contains `\frac` and, without `$` afterwards, none at all. */
  lemma FracOpenPrefix(p: string)
    requires '$' !in p
    ensures Contains(FracOpen + p, "\\frac")
    ensures Replace(FracOpen + p, "$", "") == FracOpen + p
  {
    var s := FracOpen + p;
    assert s[..5] == "\\frac";
    assert '$' !in s;
    ReplaceAbsent(s, "$", "") by { NotContainsByChar(s, "$", 0); }
  }

  /** Text that splits into an empty prefix and one piece becomes that piece rewritten. */
  lemma SingleFraction(s: string, piece: string, out: string)
    requires Split(s, FracOpen) == ["", piece] && ConvertPart(piece) == out
    ensures ConvertFractions(s) == out
  {
    var parts := ConvertParts(Split(s, FracOpen));
    assert |parts| == 2 && parts[0] == "" && parts[1] == out;
    assert parts[1..][1..] == [];
    assert Concat(parts) == "" + (out + Concat([]));
  }

  lemma SplitOneHalf(inner: string, piece: string)
    requires inner == "\\frac{1}{2}" && piece == "1}{2}"
    ensures Split(inner, FracOpen) == ["", piece]
  {
    assert inner[..6] == FracOpen && inner[6..] == piece;
    SplitAbsent(piece, FracOpen) by { NotContainsByChar(piece, FracOpen, 0); }
  }

  lemma ConvertOneHalf(piece: string)
    requires piece == "1}{2}"
    ensures ConvertPart(piece) == "(1/2)"
  {
    var n, d, rest := "1", "2", "";
    HalfLayout(piece, n, d, rest);
    WellFormedFraction(piece, n, d, rest);
  }

  lemma HalfLayout(piece: string, n: string, d: string, rest: string)
    requires piece == "1}{2}" && n == "1" && d == "2" && rest == ""
    ensures piece == n + "}{" + d + "}" + rest && '}' !in n && '}' !in d
    ensures "(" + n + "/" + d + ")" + rest == "(1/2)"
  {
  }

  /** Removing braces from text without braces changes nothing. */
  lemma NoBraces(s: string)
    requires '{' !in s && '}' !in s
    ensures Replace(Replace(s, "{", ""), "}", "") == s
  {
    ReplaceAbsent(s, "{", "") by { NotContainsByChar(s, "{", 0); }
    ReplaceAbsent(s, "}", "") by { NotContainsByChar(s, "}", 0); }
  }

  /** Replacing in `a + b` where `a` lacks the pattern's first character works on `b` alone. */
  lemma {:induction false} ReplacePrefixAbsent(a: string, b: string, pat: string, rep: string)
    requires pat != [] && pat[0] !in a
    ensures Replace(a + b, pat, rep) == a + Replace(b, pat, rep)
    decreases |a|
  {
    if a != [] {
      assert (a + b)[1..] == a[1..] + b;
      assert (a + b)[0] == a[0];
      ReplacePrefixAbsent(a[1..], b, pat, rep);
      if |a + b| >= |pat| {
        assert (a + b)[..|pat|] != pat by {
          assert (a + b)[..|pat|][0] == a[0];
        }
      }
      assert a == [a[0]] + a[1..];
    } else {
      assert a + b == b;
    }
  }
}
