/** What `generate` does to a completion after the provider returns it (the
    configured literal replacements, applied in order) and the token count
    `getTokens`. The provider call itself and the typing heartbeat are not
    part of this model; the GPT-2 tokenizer is a parameter `count` that maps
    a piece of text to its number of tokens. */
module Completion {
  import opened Text

  /** `getTokens` tokenizes its argument in slices of this many characters. */
  const TokenWindow: nat := 1024

  /** The replacements applied one after the other, first pair first. */
  function ReplaceAll(s: string, replacements: seq<(string, string)>): string
    decreases |replacements|
  {
    if replacements == [] then s
    else ReplaceAll(Replace(s, replacements[0].0, replacements[0].1), replacements[1..])
  }

  /** The replacement loop of src/main.py:43-44: each (pattern, text) pair
      is substituted into the completion in turn, on the result of the
      previous substitution. */
  method ApplyReplacements(completion: string, replacements: seq<(string, string)>) returns (r: string)
    ensures r == ReplaceAll(completion, replacements)
  {
    r := completion;
    for i := 0 to |replacements|
      invariant ReplaceAll(r, replacements[i..]) == ReplaceAll(completion, replacements)
    {
      assert replacements[i..][1..] == replacements[i + 1..];
      r := Replace(r, replacements[i].0, replacements[i].1);
    }
  }

  /** Running two lists of replacements in turn is running their
      concatenation: each pair sees the output of all earlier pairs. */
  lemma {:induction false} ReplaceAllAppend(s: string, first: seq<(string, string)>, second: seq<(string, string)>)
    ensures ReplaceAll(s, first + second) == ReplaceAll(ReplaceAll(s, first), second)
    decreases |first|
  {
    if first == [] {
      assert first + second == second;
    } else {
      assert (first + second)[1..] == first[1..] + second;
      ReplaceAllAppend(Replace(s, first[0].0, first[0].1), first[1..], second);
    }
  }

  /** Pairs that map a pattern to itself leave the completion unchanged. */
  lemma {:induction false} ReplaceAllIdentity(s: string, replacements: seq<(string, string)>)
    requires forall i :: 0 <= i < |replacements| ==> replacements[i].0 == replacements[i].1
    ensures ReplaceAll(s, replacements) == s
    decreases |replacements|
  {
    if replacements != [] {
      ReplaceBySelf(s, replacements[0].0);
      ReplaceAllIdentity(s, replacements[1..]);
    }
  }

  /** Order matters: a later pair rewrites the output of an earlier one. */
  lemma ReplacementOrderMatters()
    ensures ReplaceAll("a", [("a", "b"), ("b", "c")]) == "c"
    ensures ReplaceAll("a", [("b", "c"), ("a", "b")]) == "b"
  {
    assert Replace("a", "a", "b") == "b" by {
      assert "a"[..1] == "a";
      assert "a"[1..] == "";
    }
    assert Replace("b", "b", "c") == "c" by {
      assert "b"[..1] == "b";
      assert "b"[1..] == "";
    }
    assert Replace("a", "b", "c") == "a" by {
      assert "a"[..1] != "b";
      assert "a"[1..] == "";
    }
  }

  /** The sum of `count` over a list of text slices. */
  function SumCounts(pieces: seq<string>, count: string -> nat): nat {
    if pieces == [] then 0 else count(pieces[0]) + SumCounts(pieces[1..], count)
  }

  /** `getTokens(t)`: the token counts of the 1024-character slices of `t`,
      added up. */
  function Tokens(t: string, count: string -> nat): nat {
    SumCounts(Chunks(t, TokenWindow), count)
  }

  /** Text no longer than one window is tokenized whole; the empty text has
      no tokens. */
  lemma TokensShortText(t: string, count: string -> nat)
    requires |t| <= TokenWindow
    ensures Tokens(t, count) == if t == [] then 0 else count(t)
  {
    if t != [] {
      assert Chunks(t, TokenWindow) == [t];
      assert [t][1..] == [];
      assert SumCounts([t], count) == count(t) + SumCounts([], count);
    }
  }

  lemma {:induction false} SumCountsAppend(a: seq<string>, b: seq<string>, count: string -> nat)
    ensures SumCounts(a + b, count) == SumCounts(a, count) + SumCounts(b, count)
  {
    if a == [] {
      assert a + b == b;
    } else {
      assert (a + b)[1..] == a[1..] + b;
      SumCountsAppend(a[1..], b, count);
    }
  }

  /** Text cut at a window boundary is counted as the sum of its parts:
      slicing never straddles a multiple of 1024. */
  lemma TokensSplitAtWindow(a: string, b: string, k: nat, count: string -> nat)
    requires |a| == k * TokenWindow
    ensures Tokens(a + b, count) == Tokens(a, count) + Tokens(b, count)
  {
    ChunksAppendAligned(a, b, k, TokenWindow);
    SumCountsAppend(Chunks(a, TokenWindow), Chunks(b, TokenWindow), count);
  }

  lemma {:induction false} ChunksAppendAligned(a: string, b: string, k: nat, n: nat)
    requires n > 0 && |a| == k * n
    ensures Chunks(a + b, n) == Chunks(a, n) + Chunks(b, n)
    decreases k
  {
    if k == 0 {
      assert a == [];
      assert a + b == b;
    } else {
      assert k * n == (k - 1) * n + n;
      assert (a + b)[..n] == a[..n];
      assert (a + b)[n..] == a[n..] + b;
      ChunksAppendAligned(a[n..], b, k - 1, n);
      if k == 1 {
        assert a[n..] == [] && a[..n] == a;
        assert Chunks(a, n) == [a];
        if b == [] {
          assert a + b == a;
        }
      }
    }
  }
}
