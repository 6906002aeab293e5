/** The robots.txt parser: the document is split on line feeds and folded,
    line by line, into a map from agent name to that agent's rules in
    document order. The fold is a two-state machine: before the first
    `User-agent` line there is no current agent, afterwards there is one. */
module Robots {
  import opened Results
  import opened Text

  /** One stored directive: the lower-cased key and the value as written
      (both without surrounding whitespace). */
  datatype Rule = Rule(key: string, value: string)

  /** An agent section: the name given on its `User-agent` line and every
      rule that followed such a line, in document order. */
  datatype UserAgent = UserAgent(name: string, rules: seq<Rule>)

  /** The parsed document: agent name to agent section. */
  type Agents = map<string, UserAgent>

  const UserAgentKey := "user-agent"
  /** The `User-agent` key as the parser compares it: already lower case. */
  lemma UserAgentKeyIsLower()
    ensures Lower(UserAgentKey) == UserAgentKey
  {
    var k := UserAgentKey;
    assert k[..4] == "user" && k[4..] == "-agent";
    LowerFixes(k[..4]);
    LowerFixes(k[4..]);
    LowerAppend(k[..4], k[4..]);
    assert k[..4] + k[4..] == k;
  }

  const BadFormat := "Unexpected data format of robots.txt"
  const RuleBeforeAgent := "Rule precedes User-Agent definition"

  /** Every entry is filed under its own name. */
  predicate NamesMatch(agents: Agents) {
    forall a :: a in agents ==> agents[a].name == a
  }

  /** What one line of the document says. */
  datatype Line = Blank | Entry(key: string, value: string)

  /** Reads one line: blank lines are skipped, every other line must split
      on `:` into exactly two fields, a key (trimmed, lower-cased) and a
      value (trimmed, case kept). */
  function ReadLine(line: string): (r: Result<Line>)
    ensures r.Err? ==> r.error == ParseError(BadFormat)
  {
    if Strip(line) == [] then Ok(Blank)
    else
      var data := Split(line, ':');
      if |data| != 2 then Err(ParseError(BadFormat))
      else Ok(Entry(Lower(Strip(data[0])), Strip(data[1])))
  }

  /** A line is blank exactly when it holds only whitespace, and it is
      malformed exactly when it is not blank and does not hold exactly one
      colon. */
  lemma ReadLineOutcome(line: string)
    ensures ReadLine(line) == Ok(Blank) <==> IsBlank(line)
    ensures ReadLine(line).Err? <==> !IsBlank(line) && multiset(line)[':'] != 1
  {
    StripShape(line);
    SplitPieces(line, ':');
  }

  /** A line made of a colon-free key text, one colon and a colon-free value
      text is read as the trimmed, lower-cased key and the trimmed value. */
  lemma ReadEntry(before: string, after: string)
    requires ':' !in before && ':' !in after
    ensures ReadLine(before + [':'] + after) == Ok(Entry(Lower(Strip(before)), Strip(after)))
  {
    var line := before + [':'] + after;
    assert line[|before|] == ':';
    assert !IsBlank(line);
    StripShape(line);
    SplitAfterPiece(before, after, ':');
    SplitWithoutSeparator(after, ':');
  }

  /** Conversely, every entry comes from exactly such a line. */
  lemma EntryShape(line: string)
    requires ReadLine(line).Ok? && ReadLine(line).value.Entry?
    ensures exists i ::
              && 0 <= i < |line| && line[i] == ':' && ':' !in line[..i] && ':' !in line[i + 1..]
              && ReadLine(line).value == Entry(Lower(Strip(line[..i])), Strip(line[i + 1..]))
  {
    var data := Split(line, ':');
    assert |data| == 2;
    SplitPieces(line, ':');
    assert ':' !in data[0] && ':' !in data[1];
    JoinSplit(line, ':');
    assert Join(data, ':') == data[0] + [':'] + Join(data[1..], ':');
    assert Join(data[1..], ':') == data[1];
    var i := |data[0]|;
    assert line[i] == ':' && line[..i] == data[0] && line[i + 1..] == data[1];
  }

  /** The reading of every line of the document, in order. */
  function ReadLines(lines: seq<string>): (tokens: seq<Result<Line>>)
    ensures |tokens| == |lines|
  {
    if |lines| == 0 then [] else [ReadLine(lines[0])] + ReadLines(lines[1..])
  }

  /** The i-th token is the reading of the i-th line. */
  lemma {:induction false} ReadLinesAt(lines: seq<string>, i: nat)
    requires i < |lines|
    ensures ReadLines(lines)[i] == ReadLine(lines[i])
  {
    assert ReadLines(lines) == [ReadLine(lines[0])] + ReadLines(lines[1..]);
    if i > 0 {
      ReadLinesAt(lines[1..], i - 1);
      assert lines[1..][i - 1] == lines[i];
    }
  }

  /** Reading a line fails only with the bad-format error. */
  lemma ReadLinesErrors(lines: seq<string>)
    ensures forall i :: 0 <= i < |lines| && ReadLines(lines)[i].Err? ==> ReadLines(lines)[i].error == ParseError(BadFormat)
  {
    forall i | 0 <= i < |lines| {
      ReadLinesAt(lines, i);
    }
  }

  /** A read `User-agent` line. */
  predicate IsAgentLine(t: Result<Line>) {
    t.Ok? && t.value.Entry? && t.value.key == UserAgentKey
  }

  /** The agent name a `User-agent` line declares. */
  function AgentName(t: Result<Line>): string
    requires IsAgentLine(t)
  {
    t.value.value
  }

  /** A read line that is neither blank nor a `User-agent` line. */
  predicate IsRuleLine(t: Result<Line>) {
    t.Ok? && t.value.Entry? && t.value.key != UserAgentKey
  }

  /** The rule a rule line stores. */
  function RuleOf(t: Result<Line>): Rule
    requires IsRuleLine(t)
  {
    Rule(t.value.key, t.value.value)
  }

  /** The parser's "current agent". */
  datatype Cursor = NoAgentYet | InAgent(name: string)

  /** The parser state between two lines. */
  datatype Parser = Parser(agents: Agents, cursor: Cursor)

  /** The current agent, when there is one, has an entry. */
  predicate Valid(p: Parser) {
    p.cursor.InAgent? ==> p.cursor.name in p.agents
  }

  /** One iteration of the parse loop, on a line already read. */
  function Step(p: Parser, t: Result<Line>): (r: Result<Parser>)
    requires Valid(p)
    ensures r.Ok? ==> Valid(r.value)
    ensures r.Err? <==> t.Err? || (IsRuleLine(t) && p.cursor.NoAgentYet?)
    ensures r.Err? ==> (t.Err? && r.error == t.error) || r.error == ParseError(RuleBeforeAgent)
  {
    match t
    case Err(e) => Err(e)
    case Ok(Blank) => Ok(p)
    case Ok(Entry(key, value)) =>
      if key == UserAgentKey then
        var agents := if value in p.agents then p.agents else p.agents[value := UserAgent(value, [])];
        Ok(Parser(agents, InAgent(value)))
      else
        match p.cursor
        case NoAgentYet => Err(ParseError(RuleBeforeAgent))
        case InAgent(a) =>
          var ua := p.agents[a];
          Ok(Parser(p.agents[a := ua.(rules := ua.rules + [Rule(key, value)])], p.cursor))
  }

  /** A blank line changes nothing. */
  lemma StepBlank(p: Parser)
    requires Valid(p)
    ensures Step(p, Ok(Blank)) == Ok(p)
  {
  }

  /** A `User-agent` line selects its agent, creating an empty entry only if
      the name is new; every existing entry is left as it was. */
  lemma StepAgentLine(p: Parser, t: Result<Line>)
    requires Valid(p) && IsAgentLine(t)
    ensures var r := Step(p, t); var name := AgentName(t);
      && r.Ok?
      && r.value.cursor == InAgent(name)
      && r.value.agents.Keys == p.agents.Keys + {name}
      && (forall a :: a in p.agents ==> r.value.agents[a] == p.agents[a])
      && (name !in p.agents ==> r.value.agents[name] == UserAgent(name, []))
  {
  }

  /** A rule line under a current agent appends exactly that rule to the
      agent's list and leaves the cursor and every other entry alone. */
  lemma StepRuleLine(p: Parser, t: Result<Line>)
    requires Valid(p) && IsRuleLine(t) && p.cursor.InAgent?
    ensures var r := Step(p, t); var a := p.cursor.name;
      && r.Ok?
      && r.value.cursor == p.cursor
      && r.value.agents.Keys == p.agents.Keys
      && r.value.agents[a].name == p.agents[a].name
      && r.value.agents[a].rules == p.agents[a].rules + [RuleOf(t)]
      && (forall b :: b in p.agents && b != a ==> r.value.agents[b] == p.agents[b])
  {
  }

  /** The parse loop over the read lines, stopping at the first error; the
      error is either one a line reading produced or the rule-before-agent one. */
  function Run(p: Parser, tokens: seq<Result<Line>>): (r: Result<Parser>)
    requires Valid(p)
    ensures r.Ok? ==> Valid(r.value)
    ensures r.Ok? ==> p.agents.Keys <= r.value.agents.Keys
    ensures r.Err? ==>
              || r.error == ParseError(RuleBeforeAgent)
              || exists i :: 0 <= i < |tokens| && tokens[i].Err? && r.error == tokens[i].error
    decreases |tokens|
  {
    if |tokens| == 0 then Ok(p)
    else
      match Step(p, tokens[0])
      case Err(e) => Err(e)
      case Ok(q) =>
        var r := Run(q, tokens[1..]);
        assert forall i :: 0 <= i < |tokens[1..]| ==> tokens[1..][i] == tokens[i + 1];
        r
  }

  /** `RobotFileParser.parse`: reads the document into the agents already
      known (the parser never clears them), starting with no current agent.
      It fails with one of the two parse errors and nothing else. */
  function Parse(text: string, agents: Agents): (r: Result<Agents>)
    ensures r.Ok? ==> agents.Keys <= r.value.Keys
    ensures r.Err? ==> r.error == ParseError(BadFormat) || r.error == ParseError(RuleBeforeAgent)
  {
    ReadLinesErrors(Split(text, '\n'));
    match Run(Parser(agents, NoAgentYet), ReadLines(Split(text, '\n')))
    case Ok(p) => Ok(p.agents)
    case Err(e) => Err(e)
  }

  /** The text of one rule as `UserAgent.__str__` prints it. */
  function RuleText(r: Rule): string {
    r.key + ": " + r.value
  }

  function RuleTexts(rules: seq<Rule>): (lines: seq<string>)
    ensures |lines| == |rules|
    ensures forall i :: 0 <= i < |rules| ==> lines[i] == RuleText(rules[i])
  {
    if |rules| == 0 then [] else [RuleText(rules[0])] + RuleTexts(rules[1..])
  }

  /** `UserAgent.__str__`: the name, then one `key: value` line per rule. */
  function Render(ua: UserAgent): string {
    ua.name + "\n" + Join(RuleTexts(ua.rules), '\n')
  }
}
