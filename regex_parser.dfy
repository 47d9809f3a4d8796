/**
 * The intent table of the regex intent matcher: each intent's patterns are
 * joined into one alternation `(p1|p2|...)`, and a transcript is looked up by
 * trying the intents in table order and taking the first whose pattern
 * matches. Regular-expression search itself is not modelled: it is the
 * matcher `matches(pattern, text)` supplied by the caller.
 */
module RegexParser {
  import opened Wrappers

  /** One configured intent: its name and its settings (the `patterns` list among them). */
  datatype IntentSpec = IntentSpec(name: string, settings: map<string, seq<string>>)

  const PatternsKey: string := "patterns"
  const Bar: char := '|'

  /** The intent names of a configuration, in order. */
  function Names(config: seq<IntentSpec>): (r: seq<string>)
    ensures |r| == |config| && forall i :: 0 <= i < |config| ==> r[i] == config[i].name
  {
    if config == [] then [] else [config[0].name] + Names(config[1..])
  }

  /** The intent names of a built table, in order. */
  function TableNames(table: seq<(string, string)>): (r: seq<string>)
    ensures |r| == |table| && forall i :: 0 <= i < |table| ==> r[i] == table[i].0
  {
    if table == [] then [] else [table[0].0] + TableNames(table[1..])
  }

  /** No name occurs twice (the configuration is a dictionary keyed by intent). */
  predicate Distinct(names: seq<string>) {
    forall i, j :: 0 <= i < j < |names| ==> names[i] != names[j]
  }

  /** The intent's pattern list; an intent without one has none. */
  function PatternsOf(spec: IntentSpec): seq<string> {
    if PatternsKey in spec.settings then spec.settings[PatternsKey] else []
  }

  /** `sep.join(parts)`. */
  function Join(parts: seq<string>, sep: string): (r: string)
  {
    if parts == [] then ""
    else if |parts| == 1 then parts[0]
    else parts[0] + sep + Join(parts[1..], sep)
  }

  /** Splits `s` at every `sep`, as `s.split(sep)` does: k separators give k + 1 pieces. */
  function Split(s: string, sep: char): (r: seq<string>)
    ensures |r| >= 1
  {
    if s == [] then [""]
    else if s[0] == sep then [""] + Split(s[1..], sep)
    else
      var rest := Split(s[1..], sep);
      [[s[0]] + rest[0]] + rest[1..]
  }

  /** The alternation that matches any of `patterns`. */
  function Alternation(patterns: seq<string>): (r: string)
    ensures |r| >= 2 && r[0] == '(' && r[|r| - 1] == ')'
    ensures patterns == [] ==> r == "()"
  {
    "(" + Join(patterns, [Bar]) + ")"
  }

  /** The inside of an alternation; its alternatives are the pieces between bars. */
  function Inside(pattern: string): string
    requires |pattern| >= 2
  {
    pattern[1..|pattern| - 1]
  }

  /**
   * The table entry one configured intent becomes: its name, and one pattern
   * whose alternatives are the configured patterns in order. An intent with
   * no `patterns` setting gets the empty alternation.
   */
  function Compile(spec: IntentSpec): (r: (string, string))
    ensures r.0 == spec.name
    ensures PatternsKey !in spec.settings ==> r.1 == "()"
    ensures |r.1| >= 2 && r.1[0] == '(' && r.1[|r.1| - 1] == ')'
    ensures PatternsKey in spec.settings && |spec.settings[PatternsKey]| >= 1 &&
            (forall i :: 0 <= i < |spec.settings[PatternsKey]| ==> Bar !in spec.settings[PatternsKey][i])
            ==> Split(Inside(r.1), Bar) == spec.settings[PatternsKey]
  {
    var patterns := PatternsOf(spec);
    if |patterns| >= 1 && forall i :: 0 <= i < |patterns| ==> Bar !in patterns[i] then
      AlternationLists(patterns);
      (spec.name, Alternation(patterns))
    else
      (spec.name, Alternation(patterns))
  }

  lemma SplitAfterChar(c: char, s: string, sep: char)
    requires c != sep
    ensures Split([c] + s, sep) == [[c] + Split(s, sep)[0]] + Split(s, sep)[1..]
  {
    assert ([c] + s)[0] == c && ([c] + s)[1..] == s;
  }

  lemma {:induction false} SplitAfterPlain(p: string, s: string, sep: char)
    requires sep !in p
    ensures Split(p + s, sep) == [p + Split(s, sep)[0]] + Split(s, sep)[1..]
  {
    var r := Split(s, sep);
    if p == [] {
      assert p + s == s && p + r[0] == r[0];
      assert r == [r[0]] + r[1..];
    } else {
      assert p[0] != sep && sep !in p[1..];
      SplitAfterPlain(p[1..], s, sep);
      var rest := Split(p[1..] + s, sep);
      assert p + s == [p[0]] + (p[1..] + s);
      SplitAfterChar(p[0], p[1..] + s, sep);
      assert [p[0]] + (p[1..] + r[0]) == p + r[0];
    }
  }

  /**
   * Joining alternatives that contain no bar and splitting the result at the
   * bars gives the alternatives back: the alternation's inside lists exactly
   * the configured patterns, in order.
   */
  lemma {:induction false} SplitJoin(parts: seq<string>)
    requires |parts| >= 1
    requires forall i :: 0 <= i < |parts| ==> Bar !in parts[i]
    ensures Split(Join(parts, [Bar]), Bar) == parts
  {
    if |parts| > 1 {
      var rest := Join(parts[1..], [Bar]);
      SplitJoin(parts[1..]);
      assert parts[0] + [Bar] + rest == parts[0] + ([Bar] + rest);
      SplitAfterPlain(parts[0], [Bar] + rest, Bar);
      assert ([Bar] + rest)[1..] == rest;
      assert Split([Bar] + rest, Bar) == [""] + parts[1..];
      assert parts[0] + "" == parts[0];
      assert parts == [parts[0]] + parts[1..];
    } else {
      SplitAfterPlain(parts[0], "", Bar);
      assert parts[0] + "" == parts[0];
    }
  }

  /** The alternation of bar-free patterns lists exactly those patterns between its parentheses. */
  lemma AlternationLists(patterns: seq<string>)
    requires |patterns| >= 1
    requires forall i :: 0 <= i < |patterns| ==> Bar !in patterns[i]
    ensures Split(Inside(Alternation(patterns)), Bar) == patterns
  {
    var r := Alternation(patterns);
    assert Inside(r) == Join(patterns, [Bar]);
    SplitJoin(patterns);
  }

  /**
   * The index of the first entry of `table` whose pattern matches `text`, or
   * None when no entry matches.
   */
  function FirstMatch(table: seq<(string, string)>, text: string, matches: (string, string) -> bool): (r: Option<nat>)
    ensures r.Some? ==> r.value < |table| && matches(table[r.value].1, text)
    ensures r.Some? ==> forall j :: 0 <= j < r.value ==> !matches(table[j].1, text)
    ensures r.None? <==> forall j :: 0 <= j < |table| ==> !matches(table[j].1, text)
  {
    if table == [] then None
    else if matches(table[0].1, text) then Some(0)
    else
      match FirstMatch(table[1..], text, matches)
      case None => None
      case Some(k) => Some(k + 1)
  }

  /** An entry that matches is never passed over: the lookup stops there or earlier. */
  lemma EarlierMatchWins(table: seq<(string, string)>, text: string, matches: (string, string) -> bool, i: nat)
    requires i < |table| && matches(table[i].1, text)
    ensures FirstMatch(table, text, matches).Some?
    ensures FirstMatch(table, text, matches).value <= i
  {
  }

  /**
   * An intent configured without patterns gets the pattern `()`, which the
   * regular-expression search finds in every text; such an entry shadows
   * every entry after it.
   */
  lemma EmptyPatternShadows(config: seq<IntentSpec>, i: nat, text: string, matches: (string, string) -> bool)
    requires i < |config| && PatternsKey !in config[i].settings
    requires matches("()", text)
    ensures var table := seq(|config|, k requires 0 <= k < |config| => Compile(config[k]));
      FirstMatch(table, text, matches).Some? && FirstMatch(table, text, matches).value <= i
  {
    var table := seq(|config|, k requires 0 <= k < |config| => Compile(config[k]));
    assert table[i].1 == "()";
    EarlierMatchWins(table, text, matches, i);
  }

  /** A table compiled entry by entry from a configuration lists its intents in the same order. */
  lemma CompiledNames(config: seq<IntentSpec>, table: seq<(string, string)>)
    requires |table| == |config|
    requires forall k :: 0 <= k < |config| ==> table[k] == Compile(config[k])
    ensures TableNames(table) == Names(config)
  {
    assert forall k :: 0 <= k < |config| ==> TableNames(table)[k] == Names(config)[k];
  }

  /** The intent matcher: the compiled pattern table, in configuration order. */
  class RegexParser {
    /** (intent, alternation) pairs, in configuration order. */
    var commands: seq<(string, string)>

    /** Builds the table: one entry per configured intent, in order. */
    constructor (config: seq<IntentSpec>)
      requires Distinct(Names(config))
      ensures |commands| == |config|
      ensures forall i :: 0 <= i < |config| ==> commands[i] == Compile(config[i])
      ensures TableNames(commands) == Names(config) && Distinct(TableNames(commands))
    {
      var table: seq<(string, string)> := [];
      var i := 0;
      while i < |config|
        invariant 0 <= i <= |config|
        invariant |table| == i
        invariant forall k :: 0 <= k < i ==> table[k] == Compile(config[k])
      {
        table := table + [Compile(config[i])];
        i := i + 1;
      }
      CompiledNames(config, table);
      commands := table;
    }

    /**
     * The first intent, in table order, whose pattern matches `text`, or None.
     * The table is not changed.
     */
    method Parse(text: string, matches: (string, string) -> bool) returns (r: Option<string>)
      ensures r == (match FirstMatch(commands, text, matches)
                    case Some(i) => Some(commands[i].0)
                    case None => None)
    {
      var i := 0;
      while i < |commands|
        invariant 0 <= i <= |commands|
        invariant forall j :: 0 <= j < i ==> !matches(commands[j].1, text)
      {
        if matches(commands[i].1, text) {
          EarlierMatchWins(commands, text, matches, i);
          return Some(commands[i].0);
        }
        i := i + 1;
      }
      return None;
    }
  }
}
