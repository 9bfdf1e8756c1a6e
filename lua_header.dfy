/** The header parser for script mods (`parseLuaHeader`): a fixed table of
    line-prefixed tokens, each searched for with its own regular expression in
    the whole file after carriage returns are removed. */
module LuaHeader {
  import opened Wrappers
  import opened JsValues
  import opened Text

  /** Character classes used after a token's literal part. */
  datatype CharClass = NotNewline | Digit | WordChar

  predicate InClass(c: char, cls: CharClass) {
    match cls
    case NotNewline => c != '\n'
    case Digit => IsDigit(c)
    case WordChar => IsWordChar(c)
  }

  /** What a pattern captures after its literal part. */
  datatype Capture =
    | RestOfLine   // ([^\n]+)
    | Bracketed    // ([^\n]+)\]   -- the literal part ends with `[`
    | Integer      // (-?\d+)
    | Word         // (\w+)

  /** How a captured string becomes a field value. */
  datatype Conversion =
    | AsString     // kept as it is
    | AsList       // split on `,`, every item trimmed
    | AsNumber     // unary `+`

  datatype Component = Component(key: string, literal: string, capture: Capture,
                                 required: bool, conversion: Conversion)

  /** The header table, in the order the parser walks it. The `handle`
      defaults of the source (priority 0, badge colours, version `0.0.0`) are
      absent: they only run on a non-empty capture, where they are the identity. */
  const Components: seq<Component> := [
    Component("name", "--- MOD_NAME: ", RestOfLine, true, AsString),
    Component("id", "--- MOD_ID: ", RestOfLine, true, AsString),
    Component("author", "--- MOD_AUTHOR: [", Bracketed, true, AsList),
    Component("description", "--- MOD_DESCRIPTION: ", RestOfLine, true, AsString),
    Component("priority", "--- PRIORITY: ", Integer, false, AsNumber),
    Component("badge_colour", "--- BADGE_COLOR: ", Word, false, AsString),
    Component("badge_text_colour", "--- BADGE_TEXT_COLOR: ", Word, false, AsString),
    Component("display_name", "--- DISPLAY_NAME: ", RestOfLine, false, AsString),
    Component("dependencies", "--- DEPENDENCIES: [", Bracketed, false, AsList),
    Component("conflicts", "--- CONFLICTS: [", Bracketed, false, AsList),
    Component("prefix", "--- PREFIX: ", RestOfLine, false, AsString),
    Component("version", "--- VERSION: ", RestOfLine, false, AsString)
  ]

  /** The length of the longest run of `cls` characters starting at `j`. */
  function Run(s: string, j: nat, cls: CharClass): (n: nat)
    requires j <= |s|
    decreases |s| - j
    ensures j + n <= |s|
    ensures forall k :: j <= k < j + n ==> InClass(s[k], cls)
    ensures j + n == |s| || !InClass(s[j + n], cls)
  {
    if j < |s| && InClass(s[j], cls) then 1 + Run(s, j + 1, cls) else 0
  }

  /** The largest `k` with `1 <= k < |seg|` and `seg[k] == ']'`, or 0. */
  function LastCloseBracket(seg: string): (k: nat)
    ensures k < |seg| || k == 0
    ensures k > 0 ==> seg[k] == ']' && forall m :: k < m < |seg| ==> seg[m] != ']'
    ensures k == 0 ==> forall m :: 1 <= m < |seg| ==> seg[m] != ']'
  {
    if |seg| <= 1 then 0
    else if seg[|seg| - 1] == ']' then |seg| - 1
    else LastCloseBracket(seg[..|seg| - 1])
  }

  /** The capture of a greedy, backtracking match that starts at `j`, right
      after the literal part. */
  function CaptureAt(s: string, j: nat, cap: Capture): (r: Option<string>)
    requires j <= |s|
    ensures r.Some? ==> r.value != [] && '\n' !in r.value
    ensures cap == RestOfLine && r.Some? ==>
              j + |r.value| <= |s| && s[j..j + |r.value|] == r.value
              && (j + |r.value| == |s| || s[j + |r.value|] == '\n')
    ensures cap == RestOfLine ==> (r.None? <==> (j == |s| || s[j] == '\n'))
    ensures cap == Bracketed && r.Some? ==>
              j + |r.value| < |s| && s[j..j + |r.value|] == r.value && s[j + |r.value|] == ']'
  {
    match cap
    case RestOfLine =>
      var n := Run(s, j, NotNewline);
      if n >= 1 then Some(s[j..j + n]) else None
    case Bracketed =>
      var n := Run(s, j, NotNewline);
      var k := LastCloseBracket(s[j..j + n]);
      if k >= 1 then Some(s[j..j + k]) else None
    case Integer =>
      if j < |s| && s[j] == '-' then
        var d := Run(s, j + 1, Digit);
        if d >= 1 then Some(s[j..j + 1 + d]) else None
      else
        var d := Run(s, j, Digit);
        if d >= 1 then Some(s[j..j + d]) else None
    case Word =>
      var n := Run(s, j, WordChar);
      if n >= 1 then Some(s[j..j + n]) else None
  }

  /** `([^\n]+)\]` backtracks to the last `]` of the line: there is no match
      exactly when no `]` follows the first character on the line, and
      otherwise the capture runs up to that last `]`. */
  lemma BracketedCapture(s: string, j: nat)
    requires j <= |s|
    ensures var r := CaptureAt(s, j, Bracketed);
            var e := j + Run(s, j, NotNewline);
            && (r.None? <==> forall m :: j < m < e ==> s[m] != ']')
            && (r.Some? ==> j + |r.value| < e && s[j..j + |r.value|] == r.value && s[j + |r.value|] == ']'
                            && forall m :: j + |r.value| < m < e ==> s[m] != ']')
  {
    var n := Run(s, j, NotNewline);
    var seg := s[j..j + n];
    assert forall m :: 0 <= m < n ==> seg[m] == s[j + m];
    var k := LastCloseBracket(seg);
    if k == 0 {
      forall m | j < m < j + n
        ensures s[m] != ']'
      {
        assert seg[m - j] == s[m];
      }
    } else {
      forall m | j + k < m < j + n
        ensures s[m] != ']'
      {
        assert seg[m - j] == s[m];
      }
    }
  }

  /** `(-?\d+)`: an optional minus sign, then the whole run of digits after
      it; no match when that run is empty. */
  lemma IntegerCapture(s: string, j: nat)
    requires j <= |s|
    ensures var r := CaptureAt(s, j, Integer);
            var d := if j < |s| && s[j] == '-' then j + 1 else j;
            && (r.None? <==> d == |s| || !IsDigit(s[d]))
            && (r.Some? ==> d < j + |r.value| <= |s| && s[j..j + |r.value|] == r.value
                            && (forall k :: d <= k < j + |r.value| ==> IsDigit(s[k]))
                            && (j + |r.value| == |s| || !IsDigit(s[j + |r.value|])))
  {
  }

  /** `(\w+)`: the whole run of word characters at the start; no match when
      that run is empty. */
  lemma WordCapture(s: string, j: nat)
    requires j <= |s|
    ensures var r := CaptureAt(s, j, Word);
            && (r.None? <==> j == |s| || !IsWordChar(s[j]))
            && (r.Some? ==> j + |r.value| <= |s| && s[j..j + |r.value|] == r.value
                            && (forall k :: j <= k < j + |r.value| ==> IsWordChar(s[k]))
                            && (j + |r.value| == |s| || !IsWordChar(s[j + |r.value|])))
  {
  }

  /** The capture of the component's pattern when a match starts at `i`. */
  function MatchAt(s: string, c: Component, i: nat): Option<string> {
    if OccursAt(s, c.literal, i) then CaptureAt(s, i + |c.literal|, c.capture) else None
  }

  /** `s.match(pattern)[1]`: the capture of the leftmost match at or after `from`. */
  function FirstMatch(s: string, c: Component, from: nat): (r: Option<string>)
    decreases |s| - from
    ensures r.Some? ==> r.value != [] && '\n' !in r.value
  {
    if from > |s| then None
    else if MatchAt(s, c, from).Some? then MatchAt(s, c, from)
    else FirstMatch(s, c, from + 1)
  }

  /** `FirstMatch` finds nothing exactly when no position matches, and
      otherwise the capture at the leftmost matching position. */
  lemma {:induction false} FirstMatchIsLeftmost(s: string, c: Component, from: nat)
    decreases |s| - from
    ensures FirstMatch(s, c, from).None? <==> forall i :: from <= i <= |s| ==> MatchAt(s, c, i).None?
    ensures FirstMatch(s, c, from).Some? ==>
              exists i :: from <= i <= |s| && MatchAt(s, c, i) == FirstMatch(s, c, from)
                          && forall m :: from <= m < i ==> MatchAt(s, c, m).None?
  {
    if from > |s| {
    } else if MatchAt(s, c, from).Some? {
      assert MatchAt(s, c, from) == FirstMatch(s, c, from);
    } else {
      assert FirstMatch(s, c, from) == FirstMatch(s, c, from + 1);
      FirstMatchIsLeftmost(s, c, from + 1);
      if FirstMatch(s, c, from).Some? {
        var i :| from + 1 <= i <= |s| && MatchAt(s, c, i) == FirstMatch(s, c, from + 1)
                 && forall m :: from + 1 <= m < i ==> MatchAt(s, c, m).None?;
        forall m | from <= m < i ensures MatchAt(s, c, m).None? {
          if m > from {}
        }
      } else {
        forall i | from <= i <= |s| ensures MatchAt(s, c, i).None? {
          if i > from {}
        }
      }
    }
  }

  /** The decimal value of a string of digits. */
  function DigitsValue(d: string): nat {
    if d == [] then 0
    else
      var last := d[|d| - 1];
      DigitsValue(d[..|d| - 1]) * 10 + (if IsDigit(last) then last as int - '0' as int else 0)
  }

  /** Unary `+` on a capture of `-?\d+`. */
  function ToNumber(x: string): int {
    if x != [] && x[0] == '-' then -(DigitsValue(x[1..]) as int) else DigitsValue(x)
  }

  /** Every piece trimmed, as strings. */
  function TrimAll(parts: seq<string>): (r: seq<Value>)
    ensures |r| == |parts|
    ensures forall i :: 0 <= i < |parts| ==> r[i] == Str(Trim(parts[i]))
  {
    seq(|parts|, i requires 0 <= i < |parts| => Str(Trim(parts[i])))
  }

  function Convert(c: Component, captured: string): Value {
    match c.conversion
    case AsString => Str(captured)
    case AsList => Arr(TrimAll(Split(captured, ',')))
    case AsNumber => Num(ToNumber(captured))
  }

  /** The value a component contributes, if its pattern matches anywhere. */
  function FieldOf(text: string, c: Component): Option<Value> {
    match FirstMatch(text, c, 0)
    case None => None
    case Some(captured) => Some(Convert(c, captured))
  }

  /** The field map built from the components `cs`, in order. */
  function Collect(text: string, cs: seq<Component>): Object {
    if cs == [] then map[]
    else
      var last := cs[|cs| - 1];
      var before := Collect(text, cs[..|cs| - 1]);
      match FieldOf(text, last)
      case None => before
      case Some(v) => before[last.key := v]
  }

  predicate RequiredPresent(text: string, cs: seq<Component>) {
    forall i :: 0 <= i < |cs| && cs[i].required ==> FieldOf(text, cs[i]).Some?
  }

  predicate DistinctKeys(cs: seq<Component>) {
    forall i, j :: 0 <= i < j < |cs| ==> cs[i].key != cs[j].key
  }

  /** The text the patterns are searched in: the file with every `\r` removed. */
  function Clean(fileText: string): string {
    RemoveChar(fileText, '\r')
  }

  /** What the parser returns for a file and a table: `null` when a required
      field is missing, otherwise the field map. */
  function HeaderWith(fileText: string, cs: seq<Component>): Option<Object> {
    var text := Clean(fileText);
    if RequiredPresent(text, cs) then Some(Collect(text, cs)) else None
  }

  /** What `parseLuaHeader` returns for a file. */
  function HeaderOf(fileText: string): Option<Object> {
    HeaderWith(fileText, Components)
  }

  /** The loop of `parseLuaHeader` over a header table: stops with `null` at
      the first required component that does not match. */
  method ParseTable(fileText: string, cs: seq<Component>) returns (r: Option<Object>)
    ensures r.None? <==> exists i :: 0 <= i < |cs| && cs[i].required && FieldOf(Clean(fileText), cs[i]).None?
    ensures r == HeaderWith(fileText, cs)
  {
    var text := RemoveChar(fileText, '\r');
    var mod: Object := map[];
    for i := 0 to |cs|
      invariant mod == Collect(text, cs[..i])
      invariant forall j :: 0 <= j < i && cs[j].required ==> FieldOf(text, cs[j]).Some?
    {
      var c := cs[i];
      assert cs[..i + 1][..i] == cs[..i];
      var m := FirstMatch(text, c, 0);
      if m.Some? {
        mod := mod[c.key := Convert(c, m.value)];
      } else if c.required {
        return None;
      }
    }
    assert cs[..|cs|] == cs;
    return Some(mod);
  }

  /** `parseLuaHeader` */
  method ParseLuaHeader(fileText: string) returns (r: Option<Object>)
    ensures r.None? <==> exists i :: 0 <= i < |Components| && Components[i].required
                                     && FieldOf(Clean(fileText), Components[i]).None?
    ensures r == HeaderOf(fileText)
  {
    r := ParseTable(fileText, Components);
  }

  /** The row of a key of the table, read off its length and first letters. */
  function KeyRow(k: string): int {
    match |k|
    case 2 => 1
    case 4 => 0
    case 6 => if k[0] == 'a' then 2 else 10
    case 7 => 11
    case 8 => 4
    case 9 => 9
    case 11 => 3
    case 12 => if k[0] == 'b' then 5 else if k[1] == 'i' then 7 else 8
    case 17 => 6
    case _ => -1
  }

  lemma ComponentKeysDistinct()
    ensures DistinctKeys(Components)
  {
    // equal keys would sit in the same row
    assert forall i | 0 <= i < |Components| :: KeyRow(Components[i].key) == i;
  }

  /** Each component's key is in `Collect` exactly when the component
      matched, holding that component's value. */
  lemma {:induction false} CollectAt(text: string, cs: seq<Component>, i: nat)
    requires DistinctKeys(cs) && i < |cs|
    ensures var m := Collect(text, cs);
            var f := FieldOf(text, cs[i]);
            && (cs[i].key in m <==> f.Some?)
            && (f.Some? ==> m[cs[i].key] == f.value)
  {
    var init := cs[..|cs| - 1];
    var last := cs[|cs| - 1];
    var before := Collect(text, init);
    assert Collect(text, cs) == (match FieldOf(text, last)
                                 case None => before
                                 case Some(v) => before[last.key := v]);
    if i < |cs| - 1 {
      assert DistinctKeys(init) by {
        forall p, q | 0 <= p < q < |init| ensures init[p].key != init[q].key {
          assert init[p] == cs[p] && init[q] == cs[q];
        }
      }
      assert init[i] == cs[i];
      CollectAt(text, init, i);
      assert cs[i].key != last.key;
    } else {
      assert forall j :: 0 <= j < |init| ==> init[j].key != last.key by {
        forall j | 0 <= j < |init| ensures init[j].key != last.key {
          assert init[j] == cs[j];
        }
      }
      CollectOnlyKeys(text, init, last.key);
    }
  }

  /** `Collect` holds no key outside the table. */
  lemma {:induction false} CollectOnlyKeys(text: string, cs: seq<Component>, k: string)
    requires forall j :: 0 <= j < |cs| ==> cs[j].key != k
    ensures k !in Collect(text, cs)
  {
    if cs != [] {
      var init := cs[..|cs| - 1];
      assert forall j :: 0 <= j < |init| ==> init[j] == cs[j];
      CollectOnlyKeys(text, init, k);
    }
  }

  /** A parsed header holds a field exactly for the components that matched,
      with the converted first match as its value; optional fields that do
      not match are absent rather than defaulted. */
  lemma HeaderFields(fileText: string, i: nat)
    requires i < |Components|
    requires HeaderOf(fileText).Some?
    ensures Components[i].key in HeaderOf(fileText).value <==> FieldOf(Clean(fileText), Components[i]).Some?
    ensures FieldOf(Clean(fileText), Components[i]).Some? ==>
              HeaderOf(fileText).value[Components[i].key] == FieldOf(Clean(fileText), Components[i]).value
  {
    ComponentKeysDistinct();
    CollectAt(Clean(fileText), Components, i);
  }

  /** The four required fields are always present; name, id and description
      are non-empty strings, the author a list. */
  lemma RequiredFields(fileText: string)
    requires HeaderOf(fileText).Some?
    ensures var h := HeaderOf(fileText).value;
            && "name" in h && h["name"].Str? && h["name"].s != ""
            && "id" in h && h["id"].Str? && h["id"].s != ""
            && "author" in h && h["author"].Arr?
            && "description" in h && h["description"].Str? && h["description"].s != ""
  {
    var text := Clean(fileText);
    assert RequiredPresent(text, Components);
    var c0, c1, c2, c3 := Components[0], Components[1], Components[2], Components[3];
    assert c0.required && c1.required && c2.required && c3.required;
    HeaderFields(fileText, 0);
    HeaderFields(fileText, 1);
    HeaderFields(fileText, 2);
    HeaderFields(fileText, 3);
  }

  /** A file without a `--- VERSION: ` token has no `version` field: the
      `0.0.0` default of the source never applies. */
  lemma NoVersionWithoutToken(fileText: string)
    requires HeaderOf(fileText).Some?
    requires forall i :: 0 <= i <= |Clean(fileText)| ==> !OccursAt(Clean(fileText), "--- VERSION: ", i)
    ensures "version" !in HeaderOf(fileText).value
  {
    var c := Components[11];
    assert c.key == "version" && c.literal == "--- VERSION: ";
    var text := Clean(fileText);
    assert forall i :: 0 <= i <= |text| ==> MatchAt(text, c, i).None?;
    FirstMatchIsLeftmost(text, c, 0);
    HeaderFields(fileText, 11);
  }

  /** A matched list field is the trimmed pieces between commas of its
      capture, and re-joining the untrimmed pieces gives the capture back. */
  lemma ListFieldItems(fileText: string, i: nat)
    requires i < |Components| && Components[i].conversion == AsList
    requires FieldOf(Clean(fileText), Components[i]).Some?
    ensures var captured := FirstMatch(Clean(fileText), Components[i], 0).value;
            var pieces := Split(captured, ',');
            && FieldOf(Clean(fileText), Components[i]).value == Arr(TrimAll(pieces))
            && Join(pieces, ',') == captured
  {
    var captured := FirstMatch(Clean(fileText), Components[i], 0).value;
    JoinSplit(captured, ',');
  }
}
