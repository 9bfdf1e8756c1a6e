/** `safeParseJson`: the trailing-comma repair applied to a manifest before
    it is handed to the JSON parser. The parser itself is a parameter. */
module Manifest {
  import opened Wrappers
  import opened JsValues
  import opened Text

  /** The length of the whitespace run starting at `j`. */
  function WsRun(s: string, j: nat): (n: nat)
    requires j <= |s|
    decreases |s| - j
    ensures j + n <= |s|
    ensures j + n == |s| || !IsWhitespace(s[j + n])
  {
    if j < |s| && IsWhitespace(s[j]) then 1 + WsRun(s, j + 1) else 0
  }

  /** Every character of the run is whitespace. */
  lemma {:induction false} WsRunIsWhitespace(s: string, j: nat, k: nat)
    requires j <= |s| && j <= k < j + WsRun(s, j)
    decreases |s| - j
    ensures IsWhitespace(s[k])
  {
    if k > j {
      WsRunIsWhitespace(s, j + 1, k);
    }
  }

  /** `/,\s*c/` matches at `i`: a comma, whitespace, then `c`. (Greedy `\s*`
      never has to give characters back: a shorter run would be followed by
      whitespace, not by `c`.) */
  predicate CommaBefore(s: string, c: char, i: nat)
    requires i <= |s|
  {
    i < |s| && s[i] == ',' && i + 1 + WsRun(s, i + 1) < |s| && s[i + 1 + WsRun(s, i + 1)] == c
  }

  /** `s.replace(/,\s*c/g, c)`: every match, taken left to right without
      overlap, becomes `c` alone. */
  function StripBefore(s: string, c: char): (r: string)
    decreases |s|
    ensures |r| <= |s|
  {
    if s == [] then []
    else if CommaBefore(s, c, 0) then [c] + StripBefore(s[2 + WsRun(s, 1)..], c)
    else [s[0]] + StripBefore(s[1..], c)
  }

  /** The repaired text: trailing commas before `}` removed, then before `]`. */
  function Repair(s: string): string {
    StripBefore(StripBefore(s, '}'), ']')
  }

  /** `safeParseJson(s)` for a given `JSON.parse`: `None` stands for the
      `Invalid JSON structure` error. */
  function SafeParseJson(s: string, parse: string -> Option<Value>): Option<Value> {
    parse(Repair(s))
  }

  predicate HasCommaBefore(s: string, c: char) {
    exists i :: 0 <= i < |s| && CommaBefore(s, c, i)
  }

  /** A match at `i > 0` of `s` is a match at `i - 1` of `s[1..]`. */
  lemma CommaBeforeTail(s: string, c: char, i: nat)
    requires 0 < i <= |s|
    ensures CommaBefore(s, c, i) <==> CommaBefore(s[1..], c, i - 1)
  {
    if i < |s| && s[i] == ',' {
      WsRunTail(s, i + 1);
    }
  }

  lemma {:induction false} WsRunTail(s: string, j: nat)
    requires 0 < j <= |s|
    decreases |s| - j
    ensures WsRun(s, j) == WsRun(s[1..], j - 1)
  {
    if j < |s| && IsWhitespace(s[j]) {
      WsRunTail(s, j + 1);
    }
  }

  /** The repair changes a text exactly when it holds a trailing comma before
      `c`; otherwise `JSON.parse` sees the text unchanged. */
  lemma {:induction false} StripBeforeUnchanged(s: string, c: char)
    decreases |s|
    ensures StripBefore(s, c) == s <==> !HasCommaBefore(s, c)
  {
    if s == [] {
    } else if CommaBefore(s, c, 0) {
      assert |StripBefore(s, c)| < |s| by {
        var n := WsRun(s, 1);
        assert |StripBefore(s[2 + n..], c)| <= |s| - 2 - n;
      }
    } else {
      StripBeforeUnchanged(s[1..], c);
      if HasCommaBefore(s, c) {
        var i :| 0 <= i < |s| && CommaBefore(s, c, i);
        CommaBeforeTail(s, c, i);
        assert HasCommaBefore(s[1..], c);
      }
      if HasCommaBefore(s[1..], c) {
        var i :| 0 <= i < |s[1..]| && CommaBefore(s[1..], c, i);
        CommaBeforeTail(s, c, i + 1);
        assert HasCommaBefore(s, c);
      }
      assert [s[0]] + s[1..] == s;
    }
  }

  /** The repair removes only commas and whitespace: every other character
      keeps its number of occurrences. */
  lemma {:induction false} StripBeforeKeeps(s: string, c: char, x: char)
    requires x != ',' && !IsWhitespace(x)
    decreases |s|
    ensures multiset(StripBefore(s, c))[x] == multiset(s)[x]
  {
    if s == [] {
    } else if CommaBefore(s, c, 0) {
      StripBeforeKeeps(s[2 + WsRun(s, 1)..], c, x);
      KeepsAtMatch(s, c, x);
    } else {
      StripBeforeKeeps(s[1..], c, x);
      KeepsAtOther(s, c, x);
    }
  }

  /** One step of `StripBeforeKeeps` where a match is replaced. */
  lemma KeepsAtMatch(s: string, c: char, x: char)
    requires x != ',' && !IsWhitespace(x)
    requires s != [] && CommaBefore(s, c, 0)
    requires multiset(StripBefore(s[2 + WsRun(s, 1)..], c))[x] == multiset(s[2 + WsRun(s, 1)..])[x]
    ensures multiset(StripBefore(s, c))[x] == multiset(s)[x]
  {
    var n := WsRun(s, 1);
    var t := s[2 + n..];
    var r := StripBefore(t, c);
    calc {
      multiset(StripBefore(s, c))[x];
    == { StripAtMatch(s, c); }
      multiset([c] + r)[x];
    == { CountSplit([c], r, x); }
      multiset([c])[x] + multiset(r)[x];
    ==
      multiset([c])[x] + multiset(t)[x];
    == { MatchCount(s, c, x, n); }
      multiset(s)[x];
    }
  }

  /** At a match, the repair writes `c` and goes on after the match. */
  lemma StripAtMatch(s: string, c: char)
    requires s != [] && CommaBefore(s, c, 0)
    ensures StripBefore(s, c) == [c] + StripBefore(s[2 + WsRun(s, 1)..], c)
  {
  }

  /** The characters a match spans count `x` as often as `c` alone does. */
  lemma MatchCount(s: string, c: char, x: char, n: nat)
    requires x != ',' && !IsWhitespace(x)
    requires 1 <= |s| && n == WsRun(s, 1) && 1 + n < |s| && s[0] == ',' && s[1 + n] == c
    ensures multiset(s)[x] == multiset([c])[x] + multiset(s[2 + n..])[x]
  {
    var w := s[1..1 + n];
    var t := s[2 + n..];
    assert s == [','] + w + [c] + t;
    CountSplit([','] + w + [c], t, x);
    CountSplit([','] + w, [c], x);
    CountSplit([','], w, x);
    NotInRun(s, 1, x);
  }

  lemma CountSplit(a: string, b: string, x: char)
    ensures multiset(a + b)[x] == multiset(a)[x] + multiset(b)[x]
  {
  }

  /** A character that is not whitespace does not occur in a whitespace run. */
  lemma NotInRun(s: string, j: nat, x: char)
    requires j <= |s| && !IsWhitespace(x)
    ensures multiset(s[j..j + WsRun(s, j)])[x] == 0
  {
    var w := s[j..j + WsRun(s, j)];
    if x in w {
      var k :| 0 <= k < |w| && w[k] == x;
      WsRunIsWhitespace(s, j, j + k);
    }
  }

  /** One step of `StripBeforeKeeps` where a character is copied. */
  lemma KeepsAtOther(s: string, c: char, x: char)
    requires s != [] && !CommaBefore(s, c, 0)
    requires multiset(StripBefore(s[1..], c))[x] == multiset(s[1..])[x]
    ensures multiset(StripBefore(s, c))[x] == multiset(s)[x]
  {
    assert StripBefore(s, c) == [s[0]] + StripBefore(s[1..], c);
    assert s == [s[0]] + s[1..];
  }

  /** A list with a trailing comma reaches the parser repaired. */
  lemma RepairExample()
    ensures Repair("[1, ]") == "[1]"
  {
    ExampleBraceUnchanged();
    ExampleBracketStripped();
  }

  /** `"[1, ]"` has no comma before a `}`. */
  lemma ExampleBraceUnchanged()
    ensures StripBefore("[1, ]", '}') == "[1, ]"
  {
    var s := "[1, ]";
    assert WsRun(s, 3) == 1;
    forall i | 0 <= i < |s| ensures !CommaBefore(s, '}', i) {
      if i == 2 { assert s[3 + WsRun(s, 3)] == ']'; }
    }
    StripBeforeUnchanged(s, '}');
  }

  /** The comma of `"[1, ]"` and the blank after it go. */
  lemma ExampleBracketStripped()
    ensures StripBefore("[1, ]", ']') == "[1]"
  {
    var s := "[1, ]";
    var u := s[2..];
    assert u == ", ]";
    assert StripBefore(u, ']') == "]" by {
      assert WsRun(u, 1) == 1;
      assert CommaBefore(u, ']', 0);
      assert u[2 + WsRun(u, 1)..] == [];
    }
    assert !CommaBefore(s[1..], ']', 0);
    assert s[1..][1..] == u;
    assert StripBefore(s[1..], ']') == [s[1]] + StripBefore(u, ']');
    assert !CommaBefore(s, ']', 0);
    assert StripBefore(s, ']') == [s[0]] + StripBefore(s[1..], ']');
  }
}
