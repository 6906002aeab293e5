/** Whole-document properties of the robots.txt parser: the parse loop is a
    fold, blank lines are inert, a document parses exactly when every line is
    well shaped and no rule precedes the first `User-agent` line, and what a
    successful parse stores is described independently of the loop. */
module ParseLaws {
  import opened Results
  import opened Text
  import opened Robots

  /** Continues a partial run with more lines, unless it already failed. */
  function Then(r: Result<Parser>, tokens: seq<Result<Line>>): Result<Parser>
    requires r.Ok? ==> Valid(r.value)
  {
    match r
    case Err(e) => Err(e)
    case Ok(q) => Run(q, tokens)
  }

  /** Parsing a document in two pieces is parsing the first piece and then
      continuing from its state with the second. */
  lemma {:induction false} RunAppend(p: Parser, a: seq<Result<Line>>, b: seq<Result<Line>>)
    requires Valid(p)
    ensures Run(p, a + b) == Then(Run(p, a), b)
    decreases |a|
  {
    if |a| == 0 {
      assert a + b == b;
    } else {
      assert (a + b)[0] == a[0];
      assert (a + b)[1..] == a[1..] + b;
      match Step(p, a[0]) {
        case Err(e) =>
        case Ok(q) => RunAppend(q, a[1..], b);
      }
    }
  }

  /** A blank or whitespace-only line anywhere in the document changes
      nothing: it neither fails nor ends the current agent section. */
  lemma BlankLineIgnored(p: Parser, a: seq<Result<Line>>, b: seq<Result<Line>>)
    requires Valid(p)
    ensures Run(p, a + [Ok(Blank)] + b) == Run(p, a + b)
  {
    assert a + [Ok(Blank)] + b == a + ([Ok(Blank)] + b);
    RunAppend(p, a, [Ok(Blank)] + b);
    RunAppend(p, a, b);
    match Run(p, a) {
      case Err(e) =>
      case Ok(q) =>
        StepBlank(q);
        assert ([Ok(Blank)] + b)[1..] == b;
    }
  }

  /** The same at the level of text: a whitespace-only line can be inserted
      between any two lines of a document without changing the outcome. */
  lemma BlankTextLineIgnored(agents: Agents, a: seq<string>, blank: string, b: seq<string>)
    requires IsBlank(blank)
    ensures Run(Parser(agents, NoAgentYet), ReadLines(a + [blank] + b)) ==
            Run(Parser(agents, NoAgentYet), ReadLines(a + b))
  {
    ReadLineOutcome(blank);
    ReadLinesSplice(a, blank, b);
    ReadLinesAppend(a, b);
    BlankLineIgnored(Parser(agents, NoAgentYet), ReadLines(a), ReadLines(b));
  }

  lemma ReadLinesSplice(a: seq<string>, x: string, b: seq<string>)
    ensures ReadLines(a + [x] + b) == ReadLines(a) + [ReadLine(x)] + ReadLines(b)
  {
    ReadLinesAppend(a + [x], b);
    ReadLinesAppend(a, [x]);
    assert [x][1..] == [];
    assert ReadLines([x]) == [ReadLine(x)];
  }

  /** Reading lines distributes over concatenation. */
  lemma {:induction false} ReadLinesAppend(a: seq<string>, b: seq<string>)
    ensures ReadLines(a + b) == ReadLines(a) + ReadLines(b)
  {
    if |a| > 0 {
      assert (a + b)[1..] == a[1..] + b;
      assert (a + b)[0] == a[0];
      ReadLinesAppend(a[1..], b);
    } else {
      assert a + b == b;
    }
  }

  /** Every rule line comes after some `User-agent` line. */
  predicate NoRuleBeforeAgent(tokens: seq<Result<Line>>) {
    forall i :: 0 <= i < |tokens| && IsRuleLine(tokens[i]) ==>
      exists j :: 0 <= j < i && IsAgentLine(tokens[j])
  }

  /** When the run may fail, from any state: a line that could not be read
      always fails, and a rule line fails when no agent has been named. */
  lemma {:induction false} RunSucceedsIff(p: Parser, tokens: seq<Result<Line>>)
    requires Valid(p)
    ensures Run(p, tokens).Ok? <==>
      (forall i :: 0 <= i < |tokens| ==> tokens[i].Ok?) &&
      (p.cursor.NoAgentYet? ==> NoRuleBeforeAgent(tokens))
    decreases |tokens|
  {
    if |tokens| > 0 {
      var t, rest := tokens[0], tokens[1..];
      assert forall i :: 1 <= i < |tokens| ==> tokens[i] == rest[i - 1];
      match Step(p, t) {
        case Err(e) =>
          if t.Ok? {
            assert IsRuleLine(t) && p.cursor.NoAgentYet?;
            assert !NoRuleBeforeAgent(tokens);
          }
        case Ok(q) =>
          RunSucceedsIff(q, rest);
          if t == Ok(Blank) {
            if p.cursor.NoAgentYet? {
              BlankHeadNoRuleBeforeAgent(tokens);
            }
          } else if IsAgentLine(t) {
            StepAgentLine(p, t);
            assert NoRuleBeforeAgent(tokens) by {
              forall i | 0 <= i < |tokens| && IsRuleLine(tokens[i])
                ensures exists j :: 0 <= j < i && IsAgentLine(tokens[j])
              {
                assert IsAgentLine(tokens[0]);
              }
            }
          } else {
            StepRuleLine(p, t);
          }
      }
    }
  }

  /** A blank first line does not affect whether some rule comes too early. */
  lemma BlankHeadNoRuleBeforeAgent(tokens: seq<Result<Line>>)
    requires |tokens| > 0 && tokens[0] == Ok(Blank)
    ensures NoRuleBeforeAgent(tokens) <==> NoRuleBeforeAgent(tokens[1..])
  {
    if NoRuleBeforeAgent(tokens) {
      DropBlankHead(tokens);
    }
    if NoRuleBeforeAgent(tokens[1..]) {
      AddBlankHead(tokens);
    }
  }

  lemma DropBlankHead(tokens: seq<Result<Line>>)
    requires |tokens| > 0 && tokens[0] == Ok(Blank) && NoRuleBeforeAgent(tokens)
    ensures NoRuleBeforeAgent(tokens[1..])
  {
    var rest := tokens[1..];
    forall i | 0 <= i < |rest| && IsRuleLine(rest[i])
      ensures exists j :: 0 <= j < i && IsAgentLine(rest[j])
    {
      assert IsRuleLine(tokens[i + 1]);
      var j :| 0 <= j < i + 1 && IsAgentLine(tokens[j]);
      assert j != 0;
      assert IsAgentLine(rest[j - 1]);
    }
  }

  lemma AddBlankHead(tokens: seq<Result<Line>>)
    requires |tokens| > 0 && tokens[0] == Ok(Blank) && NoRuleBeforeAgent(tokens[1..])
    ensures NoRuleBeforeAgent(tokens)
  {
    var rest := tokens[1..];
    forall i | 0 <= i < |tokens| && IsRuleLine(tokens[i])
      ensures exists j :: 0 <= j < i && IsAgentLine(tokens[j])
    {
      assert i > 0;
      assert IsRuleLine(rest[i - 1]);
      var j :| 0 <= j < i - 1 && IsAgentLine(rest[j]);
      assert IsAgentLine(tokens[j + 1]);
    }
  }

  /** The document-level statement: `parse` succeeds exactly when every
      non-blank line holds exactly one colon and no rule line comes before
      the first `User-agent` line. */
  lemma ParseSucceedsIff(text: string, agents: Agents)
    ensures var lines := Split(text, '\n');
      Parse(text, agents).Ok? <==>
        && (forall i :: 0 <= i < |lines| ==> IsBlank(lines[i]) || multiset(lines[i])[':'] == 1)
        && NoRuleBeforeAgent(ReadLines(lines))
  {
    var lines := Split(text, '\n');
    forall i | 0 <= i < |lines| ensures ReadLines(lines)[i].Ok? <==> IsBlank(lines[i]) || multiset(lines[i])[':'] == 1 {
      ReadLinesAt(lines, i);
      ReadLineOutcome(lines[i]);
    }
    RunSucceedsIff(Parser(agents, NoAgentYet), ReadLines(lines));
  }

  /** A rule line ahead of every `User-agent` line makes the parse fail
      with the "rule precedes agent" error, whatever follows. */
  lemma RuleFirstFails(agents: Agents, first: Result<Line>, rest: seq<Result<Line>>)
    requires IsRuleLine(first)
    ensures Run(Parser(agents, NoAgentYet), [first] + rest) == Err(ParseError(RuleBeforeAgent))
  {
    assert ([first] + rest)[0] == first;
  }

  /** Rule lines under a current agent append their rules, in document
      order, to that agent's list and touch nothing else. */
  lemma {:induction false} RunRuleLines(p: Parser, ts: seq<Result<Line>>, rules: seq<Rule>)
    requires Valid(p) && p.cursor.InAgent?
    requires |ts| == |rules|
    requires forall i :: 0 <= i < |ts| ==> IsRuleLine(ts[i]) && RuleOf(ts[i]) == rules[i]
    ensures var a := p.cursor.name; var ua := p.agents[a];
      Run(p, ts) == Ok(Parser(p.agents[a := ua.(rules := ua.rules + rules)], p.cursor))
    decreases |ts|
  {
    var a := p.cursor.name;
    var ua := p.agents[a];
    if |ts| == 0 {
      assert ua.rules + rules == ua.rules;
      assert p.agents[a := ua] == p.agents;
    } else {
      var q := Parser(p.agents[a := ua.(rules := ua.rules + [rules[0]])], p.cursor);
      assert Step(p, ts[0]) == Ok(q);
      assert forall i :: 0 <= i < |ts[1..]| ==> ts[1..][i] == ts[i + 1];
      RunRuleLines(q, ts[1..], rules[1..]);
      assert (ua.rules + [rules[0]]) + rules[1..] == ua.rules + rules;
      assert q.agents[a := ua.(rules := ua.rules + rules)] == p.agents[a := ua.(rules := ua.rules + rules)];
    }
  }

  /** A `User-agent` line naming an agent that already has an entry reuses
      that entry: the rules that follow it are appended to the existing
      list and no entry is added. */
  lemma RepeatedAgentAppends(p: Parser, t: Result<Line>, ts: seq<Result<Line>>, rules: seq<Rule>)
    requires Valid(p) && IsAgentLine(t) && AgentName(t) in p.agents
    requires |ts| == |rules|
    requires forall i :: 0 <= i < |ts| ==> IsRuleLine(ts[i]) && RuleOf(ts[i]) == rules[i]
    ensures var a := AgentName(t); var ua := p.agents[a];
      && Run(p, [t] + ts).Ok?
      && Run(p, [t] + ts).value.agents == p.agents[a := ua.(rules := ua.rules + rules)]
      && Run(p, [t] + ts).value.agents.Keys == p.agents.Keys
  {
    var a := AgentName(t);
    StepAgentLine(p, t);
    var q := Step(p, t).value;
    assert q.agents == p.agents;
    assert ([t] + ts)[0] == t && ([t] + ts)[1..] == ts;
    RunRuleLines(q, ts, rules);
  }

  function Last<T>(s: seq<T>): T
    requires |s| > 0
  {
    s[|s| - 1]
  }

  function DropLast<T>(s: seq<T>): seq<T>
    requires |s| > 0
  {
    s[..|s| - 1]
  }

  /** The agent named by the nearest `User-agent` line at or before the end
      of `tokens`, scanning backwards; `c` when there is none. */
  function CurrentAgent(c: Cursor, tokens: seq<Result<Line>>): Cursor
    decreases |tokens|
  {
    if |tokens| == 0 then c
    else if IsAgentLine(Last(tokens)) then InAgent(AgentName(Last(tokens)))
    else CurrentAgent(c, DropLast(tokens))
  }

  /** The rules the document attributes to agent `a`: every rule line whose
      nearest preceding `User-agent` line names `a`, in document order. */
  function OwnedRules(c: Cursor, tokens: seq<Result<Line>>, a: string): (rules: seq<Rule>)
    ensures forall k :: 0 <= k < |rules| ==> rules[k].key != UserAgentKey
    decreases |tokens|
  {
    if |tokens| == 0 then []
    else
      var t := Last(tokens);
      var init := DropLast(tokens);
      OwnedRules(c, init, a) +
        (if IsRuleLine(t) && CurrentAgent(c, init) == InAgent(a) then [RuleOf(t)] else [])
  }

  /** The names of all `User-agent` lines. */
  function DeclaredAgents(tokens: seq<Result<Line>>): set<string> {
    set i | 0 <= i < |tokens| && IsAgentLine(tokens[i]) :: AgentName(tokens[i])
  }

  /** The rules an agent had before the parse. */
  function Before(agents: Agents, a: string): seq<Rule> {
    if a in agents then agents[a].rules else []
  }

  lemma DeclaredSnoc(tokens: seq<Result<Line>>, t: Result<Line>)
    ensures DeclaredAgents(tokens + [t]) ==
      DeclaredAgents(tokens) + (if IsAgentLine(t) then {AgentName(t)} else {})
  {
    var all := tokens + [t];
    assert forall i :: 0 <= i < |tokens| ==> all[i] == tokens[i];
    assert all[|tokens|] == t;
  }

  /** The current agent is the starting one or a declared one. */
  lemma {:induction false} CurrentAgentOrigin(c: Cursor, tokens: seq<Result<Line>>)
    ensures CurrentAgent(c, tokens) == c ||
      (CurrentAgent(c, tokens).InAgent? && CurrentAgent(c, tokens).name in DeclaredAgents(tokens))
  {
    if |tokens| > 0 {
      var init := DropLast(tokens);
      assert tokens == init + [Last(tokens)];
      DeclaredSnoc(init, Last(tokens));
      if !IsAgentLine(Last(tokens)) {
        CurrentAgentOrigin(c, init);
      }
    }
  }

  /** An agent never declared and not current at the start owns no rules. */
  lemma {:induction false} UndeclaredOwnsNothing(c: Cursor, tokens: seq<Result<Line>>, a: string)
    requires a !in DeclaredAgents(tokens) && c != InAgent(a)
    ensures OwnedRules(c, tokens, a) == []
  {
    if |tokens| > 0 {
      var init := DropLast(tokens);
      assert tokens == init + [Last(tokens)];
      DeclaredSnoc(init, Last(tokens));
      UndeclaredOwnsNothing(c, init, a);
      CurrentAgentOrigin(c, init);
    }
  }

  /** The state `q` is what the loop-free description predicts after
      running `tokens` from the agents `m` and the cursor `c`. */
  predicate Describes(m: Agents, c: Cursor, tokens: seq<Result<Line>>, q: Parser) {
    && q.cursor == CurrentAgent(c, tokens)
    && q.agents.Keys == m.Keys + DeclaredAgents(tokens)
    && (forall a :: a in q.agents ==> q.agents[a].rules == Before(m, a) + OwnedRules(c, tokens, a))
    && (forall a :: a in q.agents ==> q.agents[a].name == if a in m then m[a].name else a)
  }

  /** The backward scans, one line further. */
  lemma CurrentSnoc(c: Cursor, init: seq<Result<Line>>, t: Result<Line>)
    ensures CurrentAgent(c, init + [t]) ==
      if IsAgentLine(t) then InAgent(AgentName(t)) else CurrentAgent(c, init)
  {
    var tokens := init + [t];
    assert Last(tokens) == t && DropLast(tokens) == init;
  }

  lemma OwnedSnoc(c: Cursor, init: seq<Result<Line>>, t: Result<Line>, a: string)
    ensures OwnedRules(c, init + [t], a) == OwnedRules(c, init, a) +
      (if IsRuleLine(t) && CurrentAgent(c, init) == InAgent(a) then [RuleOf(t)] else [])
  {
    var tokens := init + [t];
    assert Last(tokens) == t && DropLast(tokens) == init;
  }

  /** A blank line keeps the description accurate. */
  lemma DescribesBlank(m: Agents, c: Cursor, init: seq<Result<Line>>, q0: Parser)
    requires Valid(q0) && Describes(m, c, init, q0)
    ensures Describes(m, c, init + [Ok(Blank)], q0)
  {
    CurrentSnoc(c, init, Ok(Blank));
    DeclaredSnoc(init, Ok(Blank));
    forall a {
      OwnedSnoc(c, init, Ok(Blank), a);
    }
  }

  /** So does a `User-agent` line. */
  lemma DescribesAgentLine(m: Agents, c: Cursor, init: seq<Result<Line>>, t: Result<Line>, q0: Parser)
    requires Valid(Parser(m, c)) && Valid(q0) && Describes(m, c, init, q0) && IsAgentLine(t)
    ensures Describes(m, c, init + [t], Step(q0, t).value)
  {
    var q := Step(q0, t).value;
    var name := AgentName(t);
    var tokens := init + [t];
    StepAgentLine(q0, t);
    assert q.cursor == CurrentAgent(c, tokens) by {
      CurrentSnoc(c, init, t);
    }
    assert q.agents.Keys == m.Keys + DeclaredAgents(tokens) by {
      DeclaredSnoc(init, t);
    }
    forall a | a in q.agents
      ensures q.agents[a].rules == Before(m, a) + OwnedRules(c, tokens, a)
      ensures q.agents[a].name == if a in m then m[a].name else a
    {
      AgentLineEntry(m, c, init, t, q0, a);
    }
  }

  /** The entry of one agent after a `User-agent` line. */
  lemma AgentLineEntry(m: Agents, c: Cursor, init: seq<Result<Line>>, t: Result<Line>, q0: Parser, a: string)
    requires Valid(Parser(m, c)) && Valid(q0) && Describes(m, c, init, q0) && IsAgentLine(t)
    requires a in Step(q0, t).value.agents
    ensures var q := Step(q0, t).value;
      && q.agents[a].rules == Before(m, a) + OwnedRules(c, init + [t], a)
      && q.agents[a].name == if a in m then m[a].name else a
  {
    StepAgentLine(q0, t);
    OwnedSnoc(c, init, t, a);
    var name := AgentName(t);
    if a == name && name !in q0.agents {
      DeclaredSnoc(init, t);
      CurrentAgentOrigin(c, init);
      UndeclaredOwnsNothing(c, init, name);
    }
  }

  /** And so does a rule line under a current agent. */
  lemma DescribesRuleLine(m: Agents, c: Cursor, init: seq<Result<Line>>, t: Result<Line>, q0: Parser)
    requires Valid(q0) && Describes(m, c, init, q0) && IsRuleLine(t) && q0.cursor.InAgent?
    ensures Describes(m, c, init + [t], Step(q0, t).value)
  {
    var q := Step(q0, t).value;
    var tokens := init + [t];
    StepRuleLine(q0, t);
    assert q.cursor == CurrentAgent(c, tokens) by {
      CurrentSnoc(c, init, t);
    }
    assert q.agents.Keys == m.Keys + DeclaredAgents(tokens) by {
      DeclaredSnoc(init, t);
    }
    forall a | a in q.agents
      ensures q.agents[a].rules == Before(m, a) + OwnedRules(c, tokens, a)
      ensures q.agents[a].name == if a in m then m[a].name else a
    {
      RuleLineEntry(m, c, init, t, q0, a);
    }
  }

  /** The entry of one agent after a rule line. */
  lemma RuleLineEntry(m: Agents, c: Cursor, init: seq<Result<Line>>, t: Result<Line>, q0: Parser, a: string)
    requires Valid(q0) && Describes(m, c, init, q0) && IsRuleLine(t) && q0.cursor.InAgent?
    requires a in q0.agents
    ensures var q := Step(q0, t).value;
      && q.agents[a].rules == Before(m, a) + OwnedRules(c, init + [t], a)
      && q.agents[a].name == if a in m then m[a].name else a
  {
    StepRuleLine(q0, t);
    OwnedSnoc(c, init, t, a);
    var q := Step(q0, t).value;
    if a == q0.cursor.name {
      assert q.agents[a].rules == (Before(m, a) + OwnedRules(c, init, a)) + [RuleOf(t)];
    } else {
      assert CurrentAgent(c, init) != InAgent(a);
    }
  }

  /** One more line keeps the description accurate. */
  lemma DescribesStep(m: Agents, c: Cursor, init: seq<Result<Line>>, t: Result<Line>, q0: Parser)
    requires Valid(Parser(m, c)) && Valid(q0) && Describes(m, c, init, q0) && Step(q0, t).Ok?
    ensures Describes(m, c, init + [t], Step(q0, t).value)
  {
    if t == Ok(Blank) {
      StepBlank(q0);
      DescribesBlank(m, c, init, q0);
    } else if IsAgentLine(t) {
      DescribesAgentLine(m, c, init, t, q0);
    } else {
      DescribesRuleLine(m, c, init, t, q0);
    }
  }

  /** What a successful run leaves behind, stated without the loop: the
      cursor names the last `User-agent` line, the entries are the old ones
      plus one per declared name, and each agent's rules are its old rules
      followed by the rules it owns, in document order. */
  lemma {:induction false} RunContents(m: Agents, c: Cursor, tokens: seq<Result<Line>>)
    requires Valid(Parser(m, c)) && Run(Parser(m, c), tokens).Ok?
    ensures Describes(m, c, tokens, Run(Parser(m, c), tokens).value)
    decreases |tokens|
  {
    var p := Parser(m, c);
    if |tokens| == 0 {
      assert DeclaredAgents(tokens) == {};
    } else {
      var t := Last(tokens);
      var init := DropLast(tokens);
      assert tokens == init + [t];
      RunAppend(p, init, [t]);
      assert Run(p, init).Ok?;
      var q0 := Run(p, init).value;
      RunContents(m, c, init);
      assert Run(q0, [t]) == Then(Step(q0, t), []) by {
        assert [t][1..] == [];
      }
      DescribesStep(m, c, init, t, q0);
    }
  }

  /** The document-level statement of what `parse` stores, for documents
      parsed into an already populated map. */
  lemma ParseContents(text: string, agents: Agents)
    requires Parse(text, agents).Ok?
    ensures var tokens := ReadLines(Split(text, '\n')); var r := Parse(text, agents).value;
      && r.Keys == agents.Keys + DeclaredAgents(tokens)
      && (forall a :: a in r ==> r[a].rules == Before(agents, a) + OwnedRules(NoAgentYet, tokens, a))
      && (NamesMatch(agents) ==> NamesMatch(r))
  {
    RunContents(agents, NoAgentYet, ReadLines(Split(text, '\n')));
  }
}
