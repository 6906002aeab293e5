/** `UserAgent.__str__` read back by the parser: the printed section, put
    after a `user-agent: ` header, parses into exactly that section whenever
    its name and rules are already in the form the parser stores. */
module RenderLaws {
  import opened Results
  import opened Text
  import opened Robots
  import opened ParseLaws

  /** Neither starts nor ends with whitespace, so `strip()` keeps it. */
  predicate Stripped(s: string) {
    s == [] || (!IsSpace(s[0]) && !IsSpace(s[|s| - 1]))
  }

  /** Text that survives being one field of one line. */
  predicate FieldText(s: string) {
    ':' !in s && '\n' !in s && Stripped(s)
  }

  /** A rule the parser could have stored: both fields are single-field
      text, and the key is lower case and not `user-agent`. */
  predicate StorableRule(r: Rule) {
    && FieldText(r.key) && FieldText(r.value)
    && (forall i :: 0 <= i < |r.key| ==> !('A' <= r.key[i] <= 'Z'))
    && r.key != UserAgentKey
  }

  /** A section the parser could have built. */
  predicate Storable(ua: UserAgent) {
    FieldText(ua.name) && forall k :: 0 <= k < |ua.rules| ==> StorableRule(ua.rules[k])
  }

  /** `strip()` removes exactly the one space the printer puts before a field. */
  lemma StripAfterSpace(s: string)
    requires Stripped(s)
    ensures Strip(" " + s) == s
  {
    var t := " " + s;
    assert t[..1] == " " && t[|s| + 1..] == [];
    if s != [] {
      assert t[1] == s[0] && t[|s|] == s[|s| - 1];
    }
    assert t[1..|s| + 1] == s;
    StripIsUnique(t, 1, |s| + 1);
  }

  /** A printed rule line reads back as the rule. */
  lemma ReadRuleText(r: Rule)
    requires StorableRule(r)
    ensures ReadLine(RuleText(r)) == Ok(Entry(r.key, r.value))
    ensures IsRuleLine(ReadLine(RuleText(r))) && RuleOf(ReadLine(RuleText(r))) == r
  {
    assert RuleText(r) == r.key + [':'] + (" " + r.value);
    assert ':' !in " " + r.value;
    ReadEntry(r.key, " " + r.value);
    var k := r.key;
    assert k[..0] == [] && k[|k|..] == [] && k[0..|k|] == k;
    StripIsUnique(k, 0, |k|);
    LowerFixes(r.key);
    StripAfterSpace(r.value);
  }

  /** The header line reads back as a `User-agent` line for the name. */
  lemma ReadHeader(name: string)
    requires FieldText(name)
    ensures ReadLine(Header + name) == Ok(Entry(UserAgentKey, name))
  {
    assert Header + name == UserAgentKey + [':'] + (" " + name);
    assert ':' !in " " + name;
    HeaderKeyStripped();
    UserAgentKeyIsLower();
    ReadEntry(UserAgentKey, " " + name);
    StripAfterSpace(name);
  }

  /** The prefix put before a printed section. */
  const Header := UserAgentKey + ": "

  /** The key the header is printed with reads as itself. */
  lemma HeaderKeyStripped()
    ensures ':' !in UserAgentKey
    ensures Strip(UserAgentKey) == UserAgentKey
  {
    var k := UserAgentKey;
    assert k[..0] == [] && k[|k|..] == [] && k[0..|k|] == k;
    StripIsUnique(k, 0, |k|);
  }

  /** The printed rule lines are line-feed free and read back rule by rule. */
  lemma ReadRuleTexts(rules: seq<Rule>)
    requires forall k :: 0 <= k < |rules| ==> StorableRule(rules[k])
    ensures forall k :: 0 <= k < |rules| ==> '\n' !in RuleTexts(rules)[k]
    ensures var ts := ReadLines(RuleTexts(rules));
      && |ts| == |rules|
      && forall k :: 0 <= k < |ts| ==> IsRuleLine(ts[k]) && RuleOf(ts[k]) == rules[k]
  {
    var texts := RuleTexts(rules);
    forall k | 0 <= k < |rules|
      ensures '\n' !in texts[k]
      ensures IsRuleLine(ReadLines(texts)[k]) && RuleOf(ReadLines(texts)[k]) == rules[k]
    {
      ReadLinesAt(texts, k);
      ReadRuleText(rules[k]);
    }
  }

  /** The lines of a printed section behind the `user-agent: ` header. */
  lemma RenderedLines(ua: UserAgent)
    requires Storable(ua)
    ensures Split(Header + Render(ua), '\n') ==
      [Header + ua.name] + (if ua.rules == [] then [""] else RuleTexts(ua.rules))
  {
    var header := Header + ua.name;
    var body := Join(RuleTexts(ua.rules), '\n');
    assert Header + Render(ua) == header + ['\n'] + body;
    assert '\n' !in Header;
    assert '\n' !in header;
    SplitAfterPiece(header, body, '\n');
    if ua.rules == [] {
      assert body == "";
    } else {
      ReadRuleTexts(ua.rules);
      SplitJoin(RuleTexts(ua.rules), '\n');
    }
  }

  /** What the lines of a printed section read as: the header names the
      agent, and the rest are its rules in order, or one empty line when
      there are none. */
  lemma RenderedTokens(ua: UserAgent)
    requires Storable(ua)
    ensures var tokens := ReadLines(Split(Header + Render(ua), '\n'));
      && |tokens| >= 1
      && tokens[0] == Ok(Entry(UserAgentKey, ua.name))
      && (ua.rules == [] ==> tokens[1..] == [Ok(Blank)])
      && (ua.rules != [] ==> SectionBody(tokens[1..], ua.rules))
  {
    var lines := Split(Header + Render(ua), '\n');
    RenderedLines(ua);
    var rest := lines[1..];
    assert lines == [lines[0]] + rest;
    var tokens := ReadLines(lines);
    assert tokens == [ReadLine(lines[0])] + ReadLines(rest);
    assert tokens[1..] == ReadLines(rest);
    ReadHeader(ua.name);
    if ua.rules == [] {
      assert rest == [""];
      ReadLineOutcome("");
      assert ReadLines(rest) == [ReadLine("")] + ReadLines([]);
    } else {
      ReadRuleTexts(ua.rules);
    }
  }

  /** Every token is the rule line for the matching rule. */
  predicate SectionBody(ts: seq<Result<Line>>, rules: seq<Rule>) {
    |ts| == |rules| && forall i :: 0 <= i < |ts| ==> IsRuleLine(ts[i]) && RuleOf(ts[i]) == rules[i]
  }

  /** A `User-agent` line followed by the section's lines, run from an
      empty map, leaves just that section. */
  lemma RunSection(name: string, rest: seq<Result<Line>>, rules: seq<Rule>)
    requires (rules == [] && rest == [Ok(Blank)]) || (rules != [] && SectionBody(rest, rules))
    ensures Run(Parser(map[], NoAgentYet), [Ok(Entry(UserAgentKey, name))] + rest) ==
      Ok(Parser(map[name := UserAgent(name, rules)], InAgent(name)))
  {
    var t := Ok(Entry(UserAgentKey, name));
    var p0 := Parser(map[], NoAgentYet);
    var q := Parser(map[name := UserAgent(name, [])], InAgent(name));
    assert Step(p0, t) == Ok(q);
    assert ([t] + rest)[0] == t && ([t] + rest)[1..] == rest;
    if rules == [] {
      assert Step(q, Ok(Blank)) == Ok(q);
      assert rest[1..] == [];
      assert Run(q, rest) == Ok(q);
      assert Run(p0, [t] + rest) == Run(q, rest);
    } else {
      RunRuleLines(q, rest, rules);
      assert [] + rules == rules;
      assert q.agents[name := UserAgent(name, rules)] == map[name := UserAgent(name, rules)];
    }
  }

  /** Printing a section the parser could have built and parsing it back,
      after a `user-agent: ` header, gives a document holding just that
      section, filed under its name. */
  lemma RenderRoundTrip(ua: UserAgent)
    requires Storable(ua)
    ensures Parse(Header + Render(ua), map[]) == Ok(map[ua.name := ua])
  {
    var tokens := ReadLines(Split(Header + Render(ua), '\n'));
    RenderedTokens(ua);
    assert tokens == [tokens[0]] + tokens[1..];
    RunSection(ua.name, tokens[1..], ua.rules);
  }
}
