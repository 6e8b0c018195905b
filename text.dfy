/** The string operations the bot relies on: Python's `str.startswith`,
    `str.lower`, `str.replace`, the formatting stripper `remove_formatting`
    and the fixed-width slicing `[t[i:i+n] for i in range(0, len(t), n)]`. */
module Text {

  /** Python's `s.startswith(prefix)`; the empty prefix matches everything. */
  predicate StartsWith(s: string, prefix: string) {
    |prefix| <= |s| && s[..|prefix|] == prefix
  }

  /** Python's `str.lower` on one character, restricted to ASCII letters. */
  function LowerChar(c: char): char {
    if 'A' <= c <= 'Z' then (c as int + 32) as char else c
  }

  /** Python's `str.lower`, character by character. */
  function Lower(s: string): string {
    seq(|s|, i requires 0 <= i < |s| => LowerChar(s[i]))
  }

  // ---------------------------------------------------------------------
  // str.replace
  // ---------------------------------------------------------------------

  /** `pat` occurs in `s` starting at index `i`. */
  predicate OccursAt(s: string, pat: string, i: int) {
    0 <= i && i + |pat| <= |s| && s[i..i + |pat|] == pat
  }

  /** Python's `s.replace(pat, rep)`: every occurrence of a non-empty
      pattern, found left to right without overlap, is replaced; an empty
      pattern inserts `rep` before every character and once at the end. */
  function Replace(s: string, pat: string, rep: string): string {
    if pat == [] then Interleave(s, rep) else ReplaceEach(s, pat, rep)
  }

  /** `s.replace("", rep)`. */
  function Interleave(s: string, rep: string): string {
    if s == [] then rep else rep + [s[0]] + Interleave(s[1..], rep)
  }

  /** `s.replace(pat, rep)` for a non-empty `pat`: the leftmost occurrence
      is replaced and the scan resumes after it. */
  function ReplaceEach(s: string, pat: string, rep: string): string
    requires pat != []
    decreases |s|
  {
    if |s| < |pat| then s
    else if s[..|pat|] == pat then rep + ReplaceEach(s[|pat|..], pat, rep)
    else [s[0]] + ReplaceEach(s[1..], pat, rep)
  }

  /** A non-empty pattern that does not occur leaves the string unchanged. */
  lemma {:induction false} ReplaceAbsent(s: string, pat: string, rep: string)
    requires pat != []
    requires forall i :: !OccursAt(s, pat, i)
    ensures Replace(s, pat, rep) == s
  {
    if |s| >= |pat| {
      assert !OccursAt(s, pat, 0);
      forall i | OccursAt(s[1..], pat, i)
        ensures false
      {
        assert s[1..][i..i + |pat|] == s[i + 1..i + 1 + |pat|];
        assert OccursAt(s, pat, i + 1);
      }
      ReplaceAbsent(s[1..], pat, rep);
    }
  }

  /** Replacing a pattern by itself changes nothing, also for the empty
      pattern. */
  lemma {:induction false} ReplaceBySelf(s: string, pat: string)
    ensures Replace(s, pat, pat) == s
  {
    if pat == [] {
      InterleaveNothing(s);
    } else {
      ReplaceEachBySelf(s, pat);
    }
  }

  lemma {:induction false} InterleaveNothing(s: string)
    ensures Interleave(s, []) == s
  {
    if s != [] {
      InterleaveNothing(s[1..]);
      assert s == [s[0]] + s[1..];
    }
  }

  lemma {:induction false} ReplaceEachBySelf(s: string, pat: string)
    requires pat != []
    ensures ReplaceEach(s, pat, pat) == s
    decreases |s|
  {
    if |s| >= |pat| {
      if s[..|pat|] == pat {
        ReplaceEachBySelf(s[|pat|..], pat);
        assert s == s[..|pat|] + s[|pat|..];
      } else {
        ReplaceEachBySelf(s[1..], pat);
        assert s == [s[0]] + s[1..];
      }
    }
  }

  /** The empty pattern inserts `rep` at each of the |s| + 1 gaps. */
  lemma {:induction false} ReplaceEmptyPatternLength(s: string, rep: string)
    ensures |Replace(s, [], rep)| == |s| + (|s| + 1) * |rep|
  {
    if s != [] {
      ReplaceEmptyPatternLength(s[1..], rep);
      calc {
        |Interleave(s, rep)|;
        |rep| + 1 + |Interleave(s[1..], rep)|;
        |rep| + 1 + (|s| - 1) + |s| * |rep|;
        { assert (|s| + 1) * |rep| == |s| * |rep| + |rep|; }
        |s| + (|s| + 1) * |rep|;
      }
    }
  }

  /** Replacing one character by nothing filters that character out. */
  lemma {:induction false} ReplaceDeletesChar(s: string, c: char)
    ensures Replace(s, [c], "") == Without(s, {c})
  {
    if s != [] {
      ReplaceDeletesChar(s[1..], c);
      assert s[..1] == [s[0]];
    }
  }

  // ---------------------------------------------------------------------
  // remove_formatting
  // ---------------------------------------------------------------------

  /** `s` with every character of `cs` dropped and the others kept in order. */
  function Without(s: string, cs: set<char>): (r: string)
    ensures |r| <= |s|
    ensures forall i :: 0 <= i < |r| ==> r[i] !in cs
  {
    if s == [] then [] else (if s[0] in cs then [] else [s[0]]) + Without(s[1..], cs)
  }

  /** Filtering distributes over concatenation, so the kept characters keep
      their order. */
  lemma {:induction false} WithoutConcat(a: string, b: string, cs: set<char>)
    ensures Without(a + b, cs) == Without(a, cs) + Without(b, cs)
  {
    if a == [] {
      assert a + b == b;
    } else {
      var head := if a[0] in cs then [] else [a[0]];
      assert (a + b)[0] == a[0];
      assert (a + b)[1..] == a[1..] + b;
      WithoutConcat(a[1..], b, cs);
      calc {
        Without(a + b, cs);
        head + Without(a[1..] + b, cs);
        head + (Without(a[1..], cs) + Without(b, cs));
        (head + Without(a[1..], cs)) + Without(b, cs);
        Without(a, cs) + Without(b, cs);
      }
    }
  }

  /** A string with no character of `cs` is left as it is. */
  lemma {:induction false} WithoutNothingToDrop(s: string, cs: set<char>)
    requires forall i :: 0 <= i < |s| ==> s[i] !in cs
    ensures Without(s, cs) == s
  {
    if s != [] {
      WithoutNothingToDrop(s[1..], cs);
      assert s == [s[0]] + s[1..];
    }
  }

  /** Filtering twice is filtering once: the stripper is idempotent. */
  lemma WithoutIdempotent(s: string, cs: set<char>)
    ensures Without(Without(s, cs), cs) == Without(s, cs)
  {
    WithoutNothingToDrop(Without(s, cs), cs);
  }

  /** Dropping `a`, then `b`, is dropping `a + b`. */
  lemma {:induction false} WithoutTwice(s: string, a: set<char>, b: set<char>)
    ensures Without(Without(s, a), b) == Without(s, a + b)
  {
    if s != [] {
      WithoutTwice(s[1..], a, b);
      var head := if s[0] in a then [] else [s[0]];
      WithoutConcat(head, Without(s[1..], a), b);
    }
  }

  /** Each character of `cs` disappears; every other character occurs
      exactly as often as before. */
  lemma {:induction false} WithoutCounts(s: string, cs: set<char>, c: char)
    ensures multiset(Without(s, cs))[c] == if c in cs then 0 else multiset(s)[c]
  {
    if s != [] {
      WithoutCounts(s[1..], cs, c);
      assert s == [s[0]] + s[1..];
      assert multiset(s) == multiset([s[0]]) + multiset(s[1..]);
      var head := if s[0] in cs then [] else [s[0]];
      assert multiset(head + Without(s[1..], cs)) == multiset(head) + multiset(Without(s[1..], cs));
    }
  }

  /** The characters `remove_formatting` strips, in the order it strips them. */
  const FormattingSymbols: seq<char> := ['*', '_', '~', '#', '`']

  /** The same characters as a set. */
  const Formatting: set<char> := {'*', '_', '~', '#', '`'}

  function CharSet(cs: seq<char>): set<char> {
    set c | c in cs
  }

  /** `remove_formatting`: one `replace(symbol, '')` per formatting symbol,
      in order; the result is the message with every formatting character
      filtered out. */
  method RemoveFormatting(message: string) returns (r: string)
    ensures r == Without(message, Formatting)
  {
    r := message;
    WithoutNothingToDrop(message, {});
    assert CharSet(FormattingSymbols[..0]) == {};
    for k := 0 to |FormattingSymbols|
      invariant r == Without(message, CharSet(FormattingSymbols[..k]))
    {
      var symbol := FormattingSymbols[k];
      ReplaceDeletesChar(r, symbol);
      WithoutTwice(message, CharSet(FormattingSymbols[..k]), {symbol});
      assert FormattingSymbols[..k + 1] == FormattingSymbols[..k] + [symbol];
      assert CharSet(FormattingSymbols[..k + 1]) == CharSet(FormattingSymbols[..k]) + {symbol};
      r := Replace(r, [symbol], "");
    }
    assert FormattingSymbols[..|FormattingSymbols|] == FormattingSymbols;
    assert CharSet(FormattingSymbols) == Formatting;
  }

  // ---------------------------------------------------------------------
  // Fixed-width slicing
  // ---------------------------------------------------------------------

  function Min(a: int, b: int): int {
    if a <= b then a else b
  }

  /** `[s[i:i+n] for i in range(0, len(s), n)]`: consecutive slices of
      width `n`, the last one possibly shorter. Every slice is non-empty and
      at most `n` long, and all but the last are exactly `n` long. */
  function Chunks(s: string, n: nat): (r: seq<string>)
    requires n > 0
    ensures forall i :: 0 <= i < |r| ==> 0 < |r[i]| <= n
    ensures forall i :: 0 <= i < |r| - 1 ==> |r[i]| == n
    decreases |s|
  {
    if s == [] then [] else if |s| <= n then [s] else [s[..n]] + Chunks(s[n..], n)
  }

  /** The concatenation of a list of strings, `''.join(ss)`. */
  function Concat(ss: seq<string>): string {
    if ss == [] then [] else ss[0] + Concat(ss[1..])
  }

  /** The slices join back to the whole string. */
  lemma {:induction false} ChunksConcat(s: string, n: nat)
    requires n > 0
    ensures Concat(Chunks(s, n)) == s
    decreases |s|
  {
    if |s| > n {
      ChunksConcat(s[n..], n);
      assert s == s[..n] + s[n..];
    }
  }

  /** There are ceil(|s| / n) slices; an empty string yields none. */
  lemma {:induction false} ChunkCount(s: string, n: nat)
    requires n > 0
    ensures |Chunks(s, n)| == (|s| + n - 1) / n
    decreases |s|
  {
    if s == [] {
      DivUnique(n - 1, n, 0, n - 1);
    } else if |s| <= n {
      DivUnique(|s| + n - 1, n, 1, |s| - 1);
    } else {
      var rest := s[n..];
      assert |Chunks(s, n)| == 1 + |Chunks(rest, n)|;
      ChunkCount(rest, n);
      assert |rest| + n - 1 == |s| - 1;
      DivShift(|s| - 1, n);
    }
  }

  lemma DivShift(x: int, n: nat)
    requires n > 0 && x >= 0
    ensures (x + n) / n == x / n + 1
  {
    var q, r := x / n, x % n;
    assert x == q * n + r && 0 <= r < n;
    assert x + n == (q + 1) * n + r;
    DivUnique(x + n, n, q + 1, r);
  }

  lemma DivUnique(y: int, n: nat, q: int, r: int)
    requires n > 0 && 0 <= r < n && y == q * n + r
    ensures y / n == q
  {
    var q', r' := y / n, y % n;
    assert y == q' * n + r' && 0 <= r' < n;
    assert (q - q') * n == q * n - q' * n;
    MulSign(q - q', n);
  }

  lemma MulSign(a: int, n: int)
    requires n >= 0
    ensures a >= 1 ==> a * n >= n
    ensures a <= -1 ==> a * n <= 0 - n
  {
    if a >= 1 {
      MulAtLeast(a, n);
    } else if a <= -1 {
      MulAtLeast(-a, n);
      assert a * n == -((-a) * n);
    }
  }

  lemma {:induction false} MulAtLeast(a: nat, n: nat)
    requires a >= 1
    ensures a * n >= n
  {
    if a > 1 {
      MulAtLeast(a - 1, n);
      assert a * n == (a - 1) * n + n;
    }
  }

  /** Slice `k` is Python's `s[k*n : k*n+n]`, clamped at the end. */
  lemma {:induction false} ChunkAt(s: string, n: nat, k: nat)
    requires n > 0
    requires k < |Chunks(s, n)|
    ensures k * n < |s|
    ensures Chunks(s, n)[k] == s[k * n .. Min(k * n + n, |s|)]
    decreases |s|
  {
    if k > 0 {
      var rest := s[n..];
      assert Chunks(s, n) == [s[..n]] + Chunks(rest, n);
      assert Chunks(s, n)[k] == Chunks(rest, n)[k - 1];
      ChunkAt(rest, n, k - 1);
      var j := (k - 1) * n;
      assert k * n == j + n;
      var e := Min(j + n, |rest|);
      assert Min(k * n + n, |s|) == e + n;
      assert 0 <= j <= e <= |rest|;
      assert rest[j..e] == s[n..][j..e] == s[j + n..e + n];
    }
  }
}
