/** The embedded-directive hook: `extract_command_and_parameters` runs
    `re.search(r'START:(.*):END', message)` and `execute_encoded_message`
    strips what it found. The pattern is greedy and `.` does not match a
    newline, so the match is the leftmost `START:` that has a `:END` later on
    the same line, closed by the LAST such `:END` on that line. The command
    dispatch in the source is an inert string literal: no command runs and
    the conversation is always returned as it came in. */
module Directive {
  import opened Values
  import opened Text
  import opened Conversation

  const Open: string := "START:"
  const Close: string := ":END"

  predicate OpenAt(m: string, p: int) {
    OccursAt(m, Open, p)
  }

  predicate CloseAt(m: string, q: int) {
    OccursAt(m, Close, q)
  }

  /** `START:(.*):END` matches `m[p..q + 4]`, capturing `m[p + 6..q]`:
      the capture holds no newline. */
  ghost predicate IsMatchAt(m: string, p: int, q: int) {
    OpenAt(m, p) && p + |Open| <= q && CloseAt(m, q) && '\n' !in m[p + |Open|..q]
  }

  /** The match `re.search` reports: it starts at the leftmost position where
      any match starts, and the greedy group makes it end as late as it can. */
  ghost predicate IsSearchResult(m: string, p: int, q: int) {
    && IsMatchAt(m, p, q)
    && (forall a, b :: a < p ==> !IsMatchAt(m, a, b))
    && (forall b :: q < b ==> !IsMatchAt(m, p, b))
  }

  /** The end of the line that contains index `i`: the first newline at or
      after `i`, or the end of the text. */
  function LineEnd(m: string, i: nat): (r: nat)
    requires i <= |m|
    ensures i <= r <= |m|
    ensures forall j :: i <= j < r ==> m[j] != '\n'
    ensures r < |m| ==> m[r] == '\n'
    decreases |m| - i
  {
    if i == |m| || m[i] == '\n' then i else LineEnd(m, i + 1)
  }

  /** The last `:END` lying wholly inside `m[lo..hi]`. */
  function LastClose(m: string, lo: nat, hi: nat): (r: Option<nat>)
    requires lo <= hi <= |m|
    ensures r.Some? ==> lo <= r.value && r.value + |Close| <= hi && CloseAt(m, r.value)
    ensures r.Some? ==> forall q :: r.value < q && q + |Close| <= hi ==> !CloseAt(m, q)
    ensures r.None? ==> forall q :: lo <= q && q + |Close| <= hi ==> !CloseAt(m, q)
    decreases hi
  {
    if hi < lo + |Close| then None
    else if CloseAt(m, hi - |Close|) then Some(hi - |Close|)
    else LastClose(m, lo, hi - 1)
  }

  /** At a `START:`, the matches are exactly the `:END`s that fit before the
      end of the line. */
  lemma MatchesOnLine(m: string, p: nat)
    requires OpenAt(m, p)
    ensures forall q :: IsMatchAt(m, p, q) <==>
      p + |Open| <= q && q + |Close| <= LineEnd(m, p + |Open|) && CloseAt(m, q)
  {
    var e := LineEnd(m, p + |Open|);
    forall q | p + |Open| <= q && CloseAt(m, q)
      ensures '\n' !in m[p + |Open|..q] <==> q + |Close| <= e
    {
      if q + |Close| > e {
        CloseHasNoNewline(m, q);
        assert e < q;
        assert m[p + |Open|..q][e - p - |Open|] == m[e] == '\n';
      }
    }
  }

  lemma CloseHasNoNewline(m: string, q: int)
    requires CloseAt(m, q)
    ensures forall j :: q <= j < q + |Close| ==> m[j] != '\n'
  {
    assert m[q..q + |Close|] == Close;
    forall j | q <= j < q + |Close| ensures m[j] != '\n' {
      assert m[j] == Close[j - q];
    }
  }

  /** The search for a match starting at `p` or later. */
  function SearchFrom(m: string, p: nat): (r: Option<(nat, nat)>)
    requires p <= |m|
    ensures r.Some? ==> p <= r.value.0 && IsMatchAt(m, r.value.0, r.value.1)
    ensures r.Some? ==> forall a, b :: p <= a < r.value.0 ==> !IsMatchAt(m, a, b)
    ensures r.Some? ==> forall b :: r.value.1 < b ==> !IsMatchAt(m, r.value.0, b)
    ensures r.None? ==> forall a, b :: p <= a ==> !IsMatchAt(m, a, b)
    decreases |m| - p
  {
    if p + |Open| > |m| then None
    else if OpenAt(m, p) then
      MatchesOnLine(m, p);
      match LastClose(m, p + |Open|, LineEnd(m, p + |Open|))
      case Some(q) => Some((p, q))
      case None => SearchFrom(m, p + 1)
    else SearchFrom(m, p + 1)
  }

  /** `extract_command_and_parameters`: the group of the match, if any. */
  function Extract(message: string): (r: Option<string>)
    ensures r.None? <==> forall p, q :: !IsMatchAt(message, p, q)
    ensures r.Some? ==>
      exists p, q :: IsSearchResult(message, p, q) && r.value == message[p + |Open|..q]
  {
    match SearchFrom(message, 0)
    case None => None
    case Some((p, q)) =>
      assert IsSearchResult(message, p, q);
      Some(message[p + |Open|..q])
  }

  /** `execute_encoded_message(message, member, convo)`: without a directive,
      or with an empty one (`START::END`), the message comes back as it is;
      otherwise every occurrence of `START:<group>:END` is removed. The
      conversation is returned unchanged on every path. */
  function ExecuteEncoded(message: string, convo: seq<Turn>): (r: (string, seq<Turn>))
    ensures r.1 == convo
    ensures |r.0| <= |message|
  {
    var fullExecutor := Extract(message);
    if fullExecutor.None? || fullExecutor.value == "" then (message, convo)
    else
      ReplaceByNothingShrinks(message, Open + fullExecutor.value + Close);
      (Replace(message, Open + fullExecutor.value + Close, ""), convo)
  }

  lemma {:induction false} ReplaceByNothingShrinks(s: string, pat: string)
    requires pat != []
    ensures |Replace(s, pat, "")| <= |s|
    decreases |s|
  {
    if |s| >= |pat| {
      if s[..|pat|] == pat {
        ReplaceByNothingShrinks(s[|pat|..], pat);
      } else {
        ReplaceByNothingShrinks(s[1..], pat);
      }
    }
  }

  /** Deleting a non-empty pattern that occurs removes at least one copy. */
  lemma {:induction false} ReplaceRemovesOccurrence(s: string, pat: string, i: nat)
    requires pat != [] && OccursAt(s, pat, i)
    ensures |Replace(s, pat, "")| <= |s| - |pat|
    decreases |s|
  {
    if s[..|pat|] == pat {
      ReplaceByNothingShrinks(s[|pat|..], pat);
    } else {
      assert i > 0;
      assert s[1..][i - 1..i - 1 + |pat|] == s[i..i + |pat|];
      ReplaceRemovesOccurrence(s[1..], pat, i - 1);
    }
  }

  /** With a non-empty directive, the text delivered is the message with
      every copy of the matched `START:<group>:END` deleted, and it is
      shorter by at least that much. */
  lemma ExecuteStripsDirective(message: string, convo: seq<Turn>)
    requires Extract(message).Some? && Extract(message).value != ""
    ensures var c := Extract(message).value;
      && ExecuteEncoded(message, convo).0 == Replace(message, Open + c + Close, "")
      && |ExecuteEncoded(message, convo).0| <= |message| - |Open + c + Close|
  {
    var c := Extract(message).value;
    var p, q :| IsSearchResult(message, p, q) && c == message[p + |Open|..q];
    MatchIsOccurrence(message, p, q);
    ReplaceRemovesOccurrence(message, Open + c + Close, p);
  }

  /** The text a match covers is `START:` + its group + `:END`. */
  lemma MatchIsOccurrence(m: string, p: int, q: int)
    requires IsMatchAt(m, p, q)
    ensures OccursAt(m, Open + m[p + |Open|..q] + Close, p)
  {
    assert m[p..q + |Close|] == m[p..p + |Open|] + m[p + |Open|..q] + m[q..q + |Close|];
  }

  /** Without a directive, or with an empty one, nothing is stripped. */
  lemma ExecuteWithoutDirective(message: string, convo: seq<Turn>)
    requires Extract(message).None? || Extract(message) == Some("")
    ensures ExecuteEncoded(message, convo) == (message, convo)
  {
  }

  /** Any match that is leftmost and longest is the one reported. */
  lemma ExtractFindsSearchResult(m: string, p: int, q: int)
    requires IsSearchResult(m, p, q)
    ensures Extract(m) == Some(m[p + |Open|..q])
  {
    var c := Extract(m).value;
    var p', q' :| IsSearchResult(m, p', q') && c == m[p' + |Open|..q'];
    assert !(p' < p) && !(p < p');
    assert !(q' < q) && !(q < q');
  }

  /** The group is greedy: with two directives on one line, the capture runs
      from the first `START:` to the last `:END`. */
  lemma GreedyCapture()
    ensures Extract("START:a:END START:b:END") == Some("a:END START:b")
  {
    var c := "a:END START:b";
    assert "START:a:END START:b:END" == Open + c + Close + "";
    LeadingDirectiveFound(c, "");
  }

  /** What any match implies about the text around it. */
  lemma MatchShape(m: string, p: int, q: int)
    requires IsMatchAt(m, p, q)
    ensures 0 <= p && p + |Open| <= q && q + |Close| <= |m|
    ensures m[p + |Open| - 1] == ':' && m[q] == ':'
    ensures forall j :: p + |Open| <= j < q ==> m[j] != '\n'
  {
    assert m[p..p + |Open|][|Open| - 1] == Open[|Open| - 1];
    CloseStartsWithColon(m, q);
    forall j | p + |Open| <= j < q ensures m[j] != '\n' {
      assert m[p + |Open|..q][j - p - |Open|] == m[j];
    }
  }

  /** A directive cannot span a line break. */
  lemma NoCaptureAcrossLines()
    ensures Extract("START:a\n:END") == None
  {
    var m := "START:a\n:END";
    assert |m| == 12 && m[5] == ':' && m[6] == 'a' && m[7] == '\n' && m[8] == ':';
    forall p, q ensures !IsMatchAt(m, p, q) {
      if IsMatchAt(m, p, q) {
        MatchShape(m, p, q);
      }
    }
  }

  /** A reply that opens with a directive, and has no colon after it,
      reaches the channel with exactly the directive removed. */
  lemma LeadingDirectiveStripped(c: string, rest: string, convo: seq<Turn>)
    requires c != "" && '\n' !in c && ':' !in rest
    ensures Extract(Open + c + Close + rest) == Some(c)
    ensures ExecuteEncoded(Open + c + Close + rest, convo) == (rest, convo)
  {
    LeadingDirectiveFound(c, rest);
    DirectiveAbsent(Open + c + Close, rest);
    ReplaceLeading(Open + c + Close, rest);
  }

  lemma DirectiveAbsent(pat: string, rest: string)
    requires |pat| >= |Open| && pat[..|Open|] == Open && ':' !in rest
    ensures forall i :: !OccursAt(rest, pat, i)
  {
    forall i ensures !OccursAt(rest, pat, i) {
      if OccursAt(rest, pat, i) {
        OpenHasColon(rest, pat, i);
      }
    }
  }

  lemma OpenHasColon(s: string, pat: string, i: int)
    requires |pat| >= |Open| && pat[..|Open|] == Open && OccursAt(s, pat, i)
    ensures s[i + |Open| - 1] == ':'
  {
    assert s[i..i + |pat|][|Open| - 1] == pat[..|Open|][|Open| - 1];
  }

  lemma ReplaceLeading(pat: string, rest: string)
    requires pat != [] && forall i :: !OccursAt(rest, pat, i)
    ensures Replace(pat + rest, pat, "") == rest
  {
    var m := pat + rest;
    assert m[..|pat|] == pat && m[|pat|..] == rest;
    ReplaceAbsent(rest, pat, "");
  }

  lemma LeadingDirectiveFound(c: string, rest: string)
    requires '\n' !in c && ':' !in rest
    ensures Extract(Open + c + Close + rest) == Some(c)
  {
    var m := Open + c + Close + rest;
    var q := |Open| + |c|;
    assert m[0..|Open|] == Open && m[|Open|..q] == c && m[q..q + |Close|] == Close;
    assert IsMatchAt(m, 0, q);
    assert m[q + 1..] == Close[1..] + rest;
    assert ':' !in Close[1..];
    NoCloseAfter(m, q + 1);
    ExtractFindsSearchResult(m, 0, q);
  }

  /** The reply `START:membercount:END Here you go` is sent as
      ` Here you go`. */
  lemma DirectiveStripped(convo: seq<Turn>)
    ensures ExecuteEncoded("START:membercount:END Here you go", convo) == (" Here you go", convo)
  {
    assert "START:membercount:END Here you go" == Open + "membercount" + Close + " Here you go";
    LeadingDirectiveStripped("membercount", " Here you go", convo);
  }

  lemma CloseStartsWithColon(m: string, b: int)
    requires CloseAt(m, b)
    ensures m[b] == ':'
  {
    assert m[b..b + |Close|][0] == Close[0];
  }

  /** No `:END` starts where no colon is left. */
  lemma NoCloseAfter(m: string, i: nat)
    requires i <= |m| && ':' !in m[i..]
    ensures forall b :: i <= b ==> !CloseAt(m, b)
  {
    forall b | i <= b ensures !CloseAt(m, b) {
      if CloseAt(m, b) {
        CloseStartsWithColon(m, b);
      }
    }
  }
}
