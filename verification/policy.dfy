/** The queries answered from a parsed document: the agent names, the values
    of one directive for one agent, the allow/disallow decision for a url, and
    the two rate directives `Crawl-delay` and `Request-rate`. */
module Policy {
  import opened Results
  import opened Text
  import opened Numbers
  import opened Robots
  import opened ParseLaws

  const Wildcard := "*"
  const AllowKey := "allow"
  const DisallowKey := "disallow"
  const CrawlDelayKey := "crawl-delay"
  const RequestRateKey := "request-rate"
  const BadRequestRate := "Invalid value for Request-rate for "

  /** The directive names the queries look up are already lower case. */
  lemma KeyIsLower(key: string)
    requires key == AllowKey || key == DisallowKey || key == CrawlDelayKey || key == RequestRateKey
    ensures Lower(key) == key
  {
    LowerFixes(key);
  }

  /** `getUserAgents`: the names recorded in the entries; for a map built by
      the parser these are exactly its keys. */
  function UserAgentNames(agents: Agents): (names: set<string>)
    ensures forall a :: a in agents ==> agents[a].name in names
    ensures forall n :: n in names ==> exists a :: a in agents && agents[a].name == n
    ensures NamesMatch(agents) ==> names == agents.Keys
  {
    set a | a in agents :: agents[a].name
  }

  /** For a document parsed into a fresh parser, `getUserAgents` lists
      exactly the names of the document's `User-agent` lines. */
  lemma ParsedUserAgents(text: string)
    requires Parse(text, map[]).Ok?
    ensures var agents := Parse(text, map[]).value;
      && NamesMatch(agents)
      && UserAgentNames(agents) == agents.Keys == DeclaredAgents(ReadLines(Split(text, '\n')))
  {
    ParseContents(text, map[]);
  }

  /** The values of the rules whose key is `key`, in rule order. */
  function ValuesOf(rules: seq<Rule>, key: string): (values: seq<string>)
    ensures |values| <= |rules|
    ensures forall v :: v in values <==> Rule(key, v) in rules
  {
    if |rules| == 0 then []
    else
      var rest := ValuesOf(rules[1..], key);
      assert forall r :: r in rules <==> r == rules[0] || r in rules[1..];
      if rules[0].key == key then [rules[0].value] + rest else rest
  }

  /** Filtering keeps document order: it distributes over concatenation. */
  lemma {:induction false} ValuesOfAppend(a: seq<Rule>, b: seq<Rule>, key: string)
    ensures ValuesOf(a + b, key) == ValuesOf(a, key) + ValuesOf(b, key)
  {
    if |a| > 0 {
      var ab := a + b;
      assert ab[0] == a[0] && ab[1..] == a[1..] + b;
      ValuesOfAppend(a[1..], b, key);
      var head := if a[0].key == key then [a[0].value] else [];
      assert ValuesOf(ab, key) == head + ValuesOf(a[1..] + b, key);
      assert ValuesOf(a, key) == head + ValuesOf(a[1..], key);
    } else {
      assert a + b == b;
    }
  }

  /** Rule `i` is the first one with key `key`. */
  predicate IsFirst(rules: seq<Rule>, key: string, i: int) {
    && 0 <= i < |rules|
    && rules[i].key == key
    && forall j :: 0 <= j < i ==> rules[j].key != key
  }

  /** Some rule has key `key`. */
  predicate HasKey(rules: seq<Rule>, key: string) {
    exists j :: 0 <= j < |rules| && rules[j].key == key
  }

  /** The filtered list is empty exactly when no rule has the key. */
  lemma ValuesOfEmpty(rules: seq<Rule>, key: string)
    ensures ValuesOf(rules, key) == [] <==> !HasKey(rules, key)
  {
    var values := ValuesOf(rules, key);
    if values != [] {
      assert values[0] in values;
      assert Rule(key, values[0]) in rules;
    }
    if HasKey(rules, key) {
      var j :| 0 <= j < |rules| && rules[j].key == key;
      assert rules[j] == Rule(key, rules[j].value);
      assert rules[j].value in values;
    }
  }

  /** The head of the filtered list is the value of the first rule with the key. */
  lemma {:induction false} ValuesOfFirst(rules: seq<Rule>, key: string, i: int)
    requires IsFirst(rules, key, i)
    ensures |ValuesOf(rules, key)| > 0 && ValuesOf(rules, key)[0] == rules[i].value
  {
    if i > 0 {
      assert rules[0].key != key;
      ValuesOfFirst(rules[1..], key, i - 1);
    }
  }

  /** When some rule has the key, a first such rule exists. */
  lemma FirstExists(rules: seq<Rule>, key: string) returns (i: int)
    requires HasKey(rules, key)
    ensures IsFirst(rules, key, i)
  {
    i := 0;
    while rules[i].key != key
      invariant 0 <= i < |rules|
      invariant forall j :: 0 <= j < i ==> rules[j].key != key
      invariant HasKey(rules[i..], key)
      decreases |rules| - i
    {
      var j :| 0 <= j < |rules[i..]| && rules[i..][j].key == key;
      assert j != 0;
      assert rules[i + 1..][j - 1] == rules[i..][j];
      i := i + 1;
    }
  }

  /** `getProperty(agent, lineType)`: `None` when the agent has no entry,
      otherwise the values of its rules whose key is `lineType.lower()`. */
  function GetProperty(agents: Agents, agent: string, lineType: string): (r: Option<seq<string>>)
    ensures r.None? <==> agent !in agents
    ensures r.Some? ==> forall v :: v in r.value <==> Rule(Lower(lineType), v) in agents[agent].rules
    ensures r.Some? ==> |r.value| <= |agents[agent].rules|
  {
    if agent in agents then Some(ValuesOf(agents[agent].rules, Lower(lineType))) else None
  }

  /** A present agent without rules of the asked kind gets an empty list,
      which is distinct from the `None` of an absent agent. */
  lemma PropertyEmpty(agents: Agents, agent: string, lineType: string)
    requires agent in agents && !HasKey(agents[agent].rules, Lower(lineType))
    ensures GetProperty(agents, agent, lineType) == Some([])
  {
    ValuesOfEmpty(agents[agent].rules, Lower(lineType));
  }

  /** How many of `values` are prefixes of `url` (`url.startswith(v)`). */
  function CountPrefixes(values: seq<string>, url: string): (n: nat)
    ensures n <= |values|
    ensures n > 0 <==> exists i :: 0 <= i < |values| && values[i] <= url
  {
    if |values| == 0 then 0
    else
      var rest := CountPrefixes(values[1..], url);
      assert forall i :: 0 < i < |values| ==> values[i] == values[1..][i - 1];
      (if values[0] <= url then 1 else 0) + rest
  }

  /** The rules that decide for `agent`: its own section, else the `*`
      section, else none at all. */
  function Applicable(agents: Agents, agent: string): Option<seq<Rule>> {
    if agent in agents then Some(agents[agent].rules)
    else if Wildcard in agents then Some(agents[Wildcard].rules)
    else None
  }

  /** Some rule with key `key` has a value that is a prefix of `url`. */
  predicate Matches(rules: seq<Rule>, key: string, url: string) {
    exists i :: 0 <= i < |rules| && rules[i].key == key && rules[i].value <= url
  }

  /** The decision rule stated directly on rules: no rules permit everything;
      otherwise a matching allow permits, whatever else matches, and failing
      that a matching disallow forbids. */
  predicate Permits(rules: Option<seq<Rule>>, url: string) {
    match rules
    case None => true
    case Some(rs) => Matches(rs, AllowKey, url) || !Matches(rs, DisallowKey, url)
  }

  /** Some filtered value is a prefix of the url exactly when some rule
      with the key matches. */
  lemma MatchesIff(rules: seq<Rule>, key: string, url: string)
    ensures CountPrefixes(ValuesOf(rules, key), url) > 0 <==> Matches(rules, key, url)
  {
    var values := ValuesOf(rules, key);
    if exists i :: 0 <= i < |values| && values[i] <= url {
      var i :| 0 <= i < |values| && values[i] <= url;
      assert values[i] in values;
      var j :| 0 <= j < |rules| && rules[j] == Rule(key, values[i]);
      assert rules[j].key == key && rules[j].value <= url;
      assert Matches(rules, key, url);
    }
    if Matches(rules, key, url) {
      var j :| 0 <= j < |rules| && rules[j].key == key && rules[j].value <= url;
      assert rules[j] == Rule(key, rules[j].value);
      assert rules[j].value in values;
      var i :| 0 <= i < |values| && values[i] == rules[j].value;
      assert values[i] <= url;
      assert exists k :: 0 <= k < |values| && values[k] <= url;
    }
  }

  /** `isAllowed(agent, url)`: an agent without an entry is answered as `*`
      is, and with no `*` entry either the answer is yes; for an agent with
      an entry, a matching allow value wins, then a matching disallow value
      forbids, and otherwise the url is allowed. The parser always files an
      entry under its own name, which is what lets the name test and the
      lookup agree. */
  function IsAllowed(agents: Agents, agent: string, url: string): (allowed: bool)
    requires NamesMatch(agents)
    ensures allowed == Permits(Applicable(agents, agent), url)
    decreases if agent == Wildcard then 0 else 1
  {
    if agent !in UserAgentNames(agents) then
      if agent != Wildcard then IsAllowed(agents, Wildcard, url) else true
    else
      SectionDecision(agents, agent, url);
      Decide(GetProperty(agents, agent, DisallowKey).value, GetProperty(agents, agent, AllowKey).value, url)
  }

  /** The three-way rule on the two filtered lists: a matching allow value
      wins, then a matching disallow value forbids, otherwise allowed. */
  function Decide(disallowed: seq<string>, allowed: seq<string>, url: string): (ok: bool)
    ensures ok <==>
      (exists i :: 0 <= i < |allowed| && allowed[i] <= url) ||
      !(exists i :: 0 <= i < |disallowed| && disallowed[i] <= url)
  {
    var disallow := CountPrefixes(disallowed, url);
    var allow := CountPrefixes(allowed, url);
    if allow > 0 then true
    else if disallow > 0 then false
    else true
  }

  /** For an agent with an entry, the rule on the filtered lists is the rule
      on the section itself. */
  lemma SectionDecision(agents: Agents, agent: string, url: string)
    requires agent in agents
    ensures GetProperty(agents, agent, DisallowKey).Some? && GetProperty(agents, agent, AllowKey).Some?
    ensures Decide(GetProperty(agents, agent, DisallowKey).value, GetProperty(agents, agent, AllowKey).value, url)
      == Permits(Some(agents[agent].rules), url)
  {
    var rules := agents[agent].rules;
    PropertyOf(agents, agent, DisallowKey);
    PropertyOf(agents, agent, AllowKey);
    MatchesIff(rules, DisallowKey, url);
    MatchesIff(rules, AllowKey, url);
  }

  /** Looking up one of the directive names gives the filtered rules. */
  lemma PropertyOf(agents: Agents, agent: string, key: string)
    requires agent in agents
    requires key == AllowKey || key == DisallowKey || key == CrawlDelayKey || key == RequestRateKey
    ensures GetProperty(agents, agent, key) == Some(ValuesOf(agents[agent].rules, key))
  {
    KeyIsLower(key);
  }

  /** A matching allow value wins even when a disallow value matches too. */
  lemma AllowWins(agents: Agents, agent: string, url: string, i: int)
    requires NamesMatch(agents) && agent in agents
    requires 0 <= i < |agents[agent].rules|
    requires agents[agent].rules[i] == Rule(AllowKey, agents[agent].rules[i].value)
    requires agents[agent].rules[i].value <= url
    ensures IsAllowed(agents, agent, url)
  {
    assert Matches(agents[agent].rules, AllowKey, url);
  }

  /** Without a matching allow value, a matching disallow value forbids. */
  lemma DisallowForbids(agents: Agents, agent: string, url: string, i: int)
    requires NamesMatch(agents) && agent in agents
    requires !Matches(agents[agent].rules, AllowKey, url)
    requires 0 <= i < |agents[agent].rules|
    requires agents[agent].rules[i] == Rule(DisallowKey, agents[agent].rules[i].value)
    requires agents[agent].rules[i].value <= url
    ensures !IsAllowed(agents, agent, url)
  {
    assert Matches(agents[agent].rules, DisallowKey, url);
  }

  /** An empty `Disallow:` value is a prefix of every url, so a section
      holding one and no allow rule forbids everything. */
  lemma EmptyDisallowForbidsAll(agents: Agents, agent: string, url: string)
    requires NamesMatch(agents) && agent in agents
    requires Rule(DisallowKey, "") in agents[agent].rules
    requires !HasKey(agents[agent].rules, AllowKey)
    ensures !IsAllowed(agents, agent, url)
  {
    var rules := agents[agent].rules;
    var i :| 0 <= i < |rules| && rules[i] == Rule(DisallowKey, "");
    assert rules[i].value <= url;
    DisallowForbids(agents, agent, url, i);
  }

  /** A section without rules allows every url. */
  lemma NoRulesAllowAll(agents: Agents, agent: string, url: string)
    requires NamesMatch(agents) && agent in agents && agents[agent].rules == []
    ensures IsAllowed(agents, agent, url)
  {
  }

  /** An agent without an entry gets the `*` answer. */
  lemma UnknownAgentIsWildcard(agents: Agents, agent: string, url: string)
    requires NamesMatch(agents) && agent !in agents
    ensures IsAllowed(agents, agent, url) == IsAllowed(agents, Wildcard, url)
  {
  }

  /** With neither an entry for the agent nor a `*` entry, everything is allowed. */
  lemma NoSectionAllowsAll(agents: Agents, agent: string, url: string)
    requires NamesMatch(agents) && agent !in agents && Wildcard !in agents
    ensures IsAllowed(agents, agent, url)
  {
  }

  /** `getCrawlDelay(agent)`: nothing when the agent has no entry or no
      `crawl-delay` rule; otherwise `int()` of the first such value, whose
      failure is the conversion's own `ValueError`. */
  function CrawlDelay(agents: Agents, agent: string): (r: Result<Option<int>>)
    ensures r == Ok(None) <==> agent !in agents || !HasKey(agents[agent].rules, CrawlDelayKey)
    ensures r.Err? ==> r.error == ValueError
  {
    match GetProperty(agents, agent, CrawlDelayKey)
    case None => Ok(None)
    case Some(cd) =>
      KeyIsLower(CrawlDelayKey);
      ValuesOfEmpty(agents[agent].rules, CrawlDelayKey);
      if |cd| == 0 then Ok(None)
      else
        match ParseInt(cd[0])
        case Some(n) => Ok(Some(n))
        case None => Err(ValueError)
  }

  /** Only the first `crawl-delay` rule counts; later ones are ignored. */
  lemma CrawlDelayFirst(agents: Agents, agent: string, i: int)
    requires agent in agents && IsFirst(agents[agent].rules, CrawlDelayKey, i)
    ensures CrawlDelay(agents, agent) ==
      match ParseInt(agents[agent].rules[i].value)
      case Some(n) => Ok(Some(n))
      case None => Err(ValueError)
  {
    KeyIsLower(CrawlDelayKey);
    ValuesOfFirst(agents[agent].rules, CrawlDelayKey, i);
  }

  /** The query fails exactly when the first `crawl-delay` value is not a
      text `int()` accepts, and the failure is the escaping ValueError. */
  lemma CrawlDelayFailsIff(agents: Agents, agent: string, i: int)
    requires agent in agents && IsFirst(agents[agent].rules, CrawlDelayKey, i)
    ensures CrawlDelay(agents, agent).Err? <==> !IsIntText(agents[agent].rules[i].value)
    ensures CrawlDelay(agents, agent).Ok? ==> CrawlDelay(agents, agent).value.Some?
  {
    CrawlDelayFirst(agents, agent, i);
    ParseIntAccepts(agents[agent].rules[i].value);
  }

  /** Rules added after a section that already has a `crawl-delay` rule do
      not change its crawl delay. */
  lemma CrawlDelayIgnoresLater(agents: Agents, agent: string, more: seq<Rule>)
    requires agent in agents && HasKey(agents[agent].rules, CrawlDelayKey)
    ensures var ua := agents[agent];
      CrawlDelay(agents[agent := ua.(rules := ua.rules + more)], agent) == CrawlDelay(agents, agent)
  {
    var ua := agents[agent];
    var longer := agents[agent := ua.(rules := ua.rules + more)];
    var i := FirstExists(ua.rules, CrawlDelayKey);
    assert IsFirst(longer[agent].rules, CrawlDelayKey, i);
    CrawlDelayFirst(agents, agent, i);
    CrawlDelayFirst(longer, agent, i);
  }

  /** A first `crawl-delay` value that is an integer as Python prints it,
      padded with any whitespace, is read back as that integer. */
  lemma CrawlDelayShow(agents: Agents, agent: string, i: int, pre: string, n: int, post: string)
    requires agent in agents && IsFirst(agents[agent].rules, CrawlDelayKey, i)
    requires IsBlank(pre) && IsBlank(post) && agents[agent].rules[i].value == pre + Show(n) + post
    ensures CrawlDelay(agents, agent) == Ok(Some(n))
  {
    CrawlDelayFirst(agents, agent, i);
    ParseIntShow(pre, n, post);
  }

  /** `getRequestRate(agent)` up to the division: nothing when the agent has
      no entry or no `request-rate` rule; otherwise the first such value is
      read as a rate, and a value that is not one is the parse error naming
      the agent. */
  function RequestRate(agents: Agents, agent: string): (r: Result<Option<(Float, Float)>>)
    ensures r == Ok(None) <==> agent !in agents || !HasKey(agents[agent].rules, RequestRateKey)
    ensures r.Err? ==> r.error == ParseError(BadRequestRate + agent)
  {
    match GetProperty(agents, agent, RequestRateKey)
    case None => Ok(None)
    case Some(rr) =>
      KeyIsLower(RequestRateKey);
      ValuesOfEmpty(agents[agent].rules, RequestRateKey);
      if |rr| == 0 then Ok(None)
      else
        match ReadRate(rr[0], agent)
        case Ok(rate) => Ok(Some(rate))
        case Err(e) => Err(e)
  }

  /** One `request-rate` value `R/S`: it must split on `/` into exactly two
      fields that `float()` accepts; the two numbers are returned. */
  function ReadRate(value: string, agent: string): (r: Result<(Float, Float)>)
    ensures r.Err? ==> r.error == ParseError(BadRequestRate + agent)
  {
    var fields := Split(value, '/');
    if |fields| != 2 then Err(ParseError(BadRequestRate + agent))
    else
      match (ParseFloat(fields[0]), ParseFloat(fields[1]))
      case (Some(requests), Some(seconds)) => Ok((requests, seconds))
      case _ => Err(ParseError(BadRequestRate + agent))
  }

  /** Only the first `request-rate` rule counts; later ones are ignored. */
  lemma RequestRateFirst(agents: Agents, agent: string, i: int)
    requires agent in agents && IsFirst(agents[agent].rules, RequestRateKey, i)
    ensures RequestRate(agents, agent) ==
      match ReadRate(agents[agent].rules[i].value, agent)
      case Ok(rate) => Ok(Some(rate))
      case Err(e) => Err(e)
  {
    KeyIsLower(RequestRateKey);
    ValuesOfFirst(agents[agent].rules, RequestRateKey, i);
  }

  /** Rules added after a section that already has a `request-rate` rule
      do not change its request rate. */
  lemma RequestRateIgnoresLater(agents: Agents, agent: string, more: seq<Rule>)
    requires agent in agents && HasKey(agents[agent].rules, RequestRateKey)
    ensures var ua := agents[agent];
      RequestRate(agents[agent := ua.(rules := ua.rules + more)], agent) == RequestRate(agents, agent)
  {
    var ua := agents[agent];
    var longer := agents[agent := ua.(rules := ua.rules + more)];
    var i := FirstExists(ua.rules, RequestRateKey);
    assert IsFirst(longer[agent].rules, RequestRateKey, i);
    RequestRateFirst(agents, agent, i);
    RequestRateFirst(longer, agent, i);
  }

  /** A value without exactly one `/` is rejected. */
  lemma ReadRateBadShape(value: string, agent: string)
    requires multiset(value)['/'] != 1
    ensures ReadRate(value, agent) == Err(ParseError(BadRequestRate + agent))
  {
    SplitPieces(value, '/');
  }

  /** A value `R/S` is read as the pair of `float(R)` and `float(S)`, and
      rejected when either is not a number. */
  lemma ReadRateFields(r: string, s: string, agent: string)
    requires '/' !in r && '/' !in s
    ensures ReadRate(r + "/" + s, agent) ==
      match (ParseFloat(r), ParseFloat(s))
      case (Some(x), Some(y)) => Ok((x, y))
      case _ => Err(ParseError(BadRequestRate + agent))
  {
    SplitAfterPiece(r, s, '/');
    SplitWithoutSeparator(s, '/');
  }

  /** A field with no numeric shape, on either side of the `/`, makes the
      value the parse error naming the agent. */
  lemma ReadRateNotNumber(r: string, s: string, agent: string)
    requires '/' !in r && '/' !in s
    requires !IsFloatBody(AfterSign(Strip(r))) || !IsFloatBody(AfterSign(Strip(s)))
    ensures ReadRate(r + "/" + s, agent) == Err(ParseError(BadRequestRate + agent))
  {
    ReadRateFields(r, s, agent);
    ParseFloatShape(r);
    ParseFloatShape(s);
  }

  /** Two integers written as Python prints them around a `/` are read back
      as exactly those two numbers. */
  lemma ReadRateShow(n: int, d: int, agent: string)
    ensures ReadRate(Show(n) + "/" + Show(d), agent) == Ok((Finite(n, 0), Finite(d, 0)))
  {
    ShowHasNoSlash(n);
    ShowHasNoSlash(d);
    ReadRateFields(Show(n), Show(d), agent);
    ParseFloatShow(n);
    ParseFloatShow(d);
  }

  /** The same through the lookup: a first `request-rate` value written
      `n/d` gives the pair `(n, d)`. */
  lemma RequestRateShow(agents: Agents, agent: string, i: int, n: int, d: int)
    requires agent in agents && IsFirst(agents[agent].rules, RequestRateKey, i)
    requires agents[agent].rules[i].value == Show(n) + "/" + Show(d)
    ensures RequestRate(agents, agent) == Ok(Some((Finite(n, 0), Finite(d, 0))))
  {
    RequestRateFirst(agents, agent, i);
    ReadRateShow(n, d, agent);
  }

  lemma ShowHasNoSlash(n: int)
    ensures '/' !in Show(n)
  {
    if n < 0 {
      assert Show(n) == "-" + ShowNat(-n);
      assert '/' !in ShowNat(-n);
    }
  }
}
