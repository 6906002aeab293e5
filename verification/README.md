# simplerobotparser in Dafny

A model of `RobotFileParser`, a small robots.txt parser written in Python 2,
together with proofs about it. A robots.txt document is a list of
`User-agent` sections. Each section holds `key: value` directives such as
`Disallow: /private`, `Allow: /private/open`, `Crawl-delay: 10` and
`Request-rate: 1/5`. The parser reads such a document into a map from agent
name to that agent's rules. Four queries are answered from the map:

- the agent names;
- the values of one directive for one agent;
- whether an agent may fetch a url;
- the agent's crawl delay and request rate.

The model keeps the semantics of Python 2 byte strings where they matter:

- `strip()` removes ASCII whitespace;
- `lower()` folds ASCII letters only;
- `split(sep)` always yields one more piece than there are separators;
- `int()` and `float()` accept the decimal literals CPython 2 accepts, with
  the exceptions listed under "Left out".

Modules:

- `Results`: `Option`, `Result`, and the two errors the code raises. These
  are `ParseError(msg)` and the `ValueError` of a failed `int()`.
- `Text`: `strip`, `lower`, `split` and `join` on strings. Each has a
  characterisation that does not depend on how it is computed.
- `Numbers`: Python 2 `int()` in base 10 and `float()`, plus the decimal
  rendering `str(n)`. Finite floats are kept exact, as coefficient × 10^exponent.
- `Robots`: the data model and `parse`.
  - `parse` reads each line into a `Line` token: blank, or a (key, value)
    entry.
  - It then folds the tokens through a two-state machine, with no current
    agent or some current agent.
  - `UserAgent.__str__` is modelled as `Render`.
- `ParseLaws`: what `parse` computes.
  - It succeeds exactly when no line is malformed and no rule comes before
    the first `User-agent` line.
  - The resulting map holds exactly the declared agents, each with its own
    rules in document order.
  - Blank lines are irrelevant.
  - A repeated `User-agent` line appends to its earlier section.
- `Policy`: `getUserAgents`, `getProperty`, `isAllowed`, `getCrawlDelay` and
  `getRequestRate`. `IsAllowed` is related to a decision rule stated
  directly on the rules, `Permits`.
- `RenderLaws`: take a section printed by `UserAgent.__str__` and put a
  `user-agent: ` header in front of it. Parsing the result gives back
  exactly that section.

Points where the code's behaviour is easy to misread, and how the model
follows it:

- Errors. `parse` and `getRequestRate` raise `ParseError(msg)`, and the
  message says what went wrong. `getCrawlDelay` catches nothing, so a bad
  `Crawl-delay` value lets `int()`'s `ValueError` escape. `CrawlDelay`
  returns that `ValueError`.
- Re-parsing. `parse` never clears `useragents`, so a second parse adds to
  the agents already known. `Parse` therefore takes the map it starts from
  as a parameter, and `ParseContents` covers both a fresh and a continued
  parse.
- Failure. `parse` updates its map line by line, so a failing parse keeps
  what it read before the bad line. The model returns only the error; see
  "Left out".
- Colons. `parse` splits a line on every colon and rejects any non-blank line
  that does not hold exactly one; `ReadLineOutcome` states this.
- Request rate. `getRequestRate` returns `float(R)/float(S)`. The model stops
  at the validated pair (R, S); see "Left out".

One consequence of the code's prefix test deserves mention. `url.startswith("")`
is true, so an empty `Disallow:` value forbids every url of its section unless
an `Allow` value matches (`Policy.EmptyDisallowForbidsAll`). Many robots.txt
readers treat an empty `Disallow:` as "allow everything"; this program does not.

## Model

| member | source | states |
|---|---|---|
| Text.Strip | simplerobotparser.py:61-66 | `strip()`; it carries no contract of its own, and `Text.StripShape` with `Text.StripIsUnique` characterise its result |
| Text.StripShape | simplerobotparser.py:61-61 | `line.strip()` is empty exactly when the line is whitespace only, and a non-empty result neither starts nor ends with whitespace |
| Text.StripIsUnique | simplerobotparser.py:65-66 | any inner slice with only whitespace around it and no whitespace at its ends is what `strip()` returns, which pins down the trimmed key and value |
| Text.StripIdempotent | simplerobotparser.py:65-66 | stripping an already-stripped field changes nothing |
| Text.Lower | simplerobotparser.py:65-65 | `lower()`: the result has the same length and each character is folded on its own |
| Text.LowerFolds | simplerobotparser.py:65-65 | `lower()` leaves no upper-case ASCII letter, changes only upper-case letters, and moves each one to its lower-case partner |
| Text.LowerFixes | simplerobotparser.py:65-65 | a key without upper-case letters is its own `lower()` |
| Text.LowerAppend | simplerobotparser.py:65-65 | `lower()` works piece by piece over concatenation |
| Text.Split | simplerobotparser.py:60-62 | `split(sep)` always yields at least one piece; `Text.SplitPieces` and `Text.JoinSplit` state what the pieces are |
| Text.Join | simplerobotparser.py:153-153 | `'\n'.join`; it carries no contract of its own, and `Text.JoinSplit` and `Text.SplitJoin` make it the inverse of `split` |
| Text.SplitPieces | simplerobotparser.py:62-63 | `split(':')` yields one more piece than the line has colons, and no piece holds a colon, so the two-field test means exactly one colon |
| Text.JoinSplit | simplerobotparser.py:62-62 | joining the pieces of a split with the separator gives back the original string |
| Text.SplitJoin | simplerobotparser.py:152-154 | splitting the `'\n'.join` of line-feed-free lines gives back those lines |
| Text.SplitAfterPiece | simplerobotparser.py:60-60 | splitting a separator-free piece, the separator and a rest gives that piece followed by the split of the rest |
| Text.SplitWithoutSeparator | simplerobotparser.py:62-62 | a string without the separator splits into itself alone |
| Text.SplitAlone | simplerobotparser.py:142-142 | a split that yields one piece left the string whole |
| Text.SplitInTwo | simplerobotparser.py:141-141 | a split that yields two pieces had exactly one separator, between them |
| Numbers.ParseInt | simplerobotparser.py:128-128 | `int()` in base 10; it carries no contract of its own. `Numbers.ParseIntAccepts` states exactly which texts it accepts; `Numbers.ParseIntShow`, `Numbers.ParseIntOfShow` and `Numbers.SpaceAfterSign` state the values it returns |
| Numbers.ParseIntAccepts | simplerobotparser.py:128-128 | `int()` succeeds if and only if the stripped text is a digit run, or a sign followed by optional whitespace and a digit run |
| Numbers.ParseFloat | simplerobotparser.py:142-142 | `float()`; it carries no contract of its own. `Numbers.ParseFloatShow`, `Numbers.IntLiteralIsFloat`, `Numbers.FractionIsFloat` and `Numbers.ExponentIsDecimal` state what it accepts and the value it returns; `Numbers.ParseFloatShape` and `Numbers.SpaceAfterSign` state what it rejects |
| Numbers.ParseSignedShow | simplerobotparser.py:128-128 | a signed digit run reads back as the integer that `str(n)` rendered |
| Numbers.ParseIntShow | simplerobotparser.py:128-128 | `int()` accepts `str(n)` with any whitespace padding and returns n |
| Numbers.ParseIntOfShow | simplerobotparser.py:128-128 | whatever strips down to `str(n)` is read by `int()` as n |
| Numbers.SpaceAfterSign | simplerobotparser.py:128-128 | for either sign, any non-empty run of whitespace and any digits, `int()` skips the whitespace after the sign and reads the signed value, while `float()` rejects the same text |
| Numbers.IntLiteralIsFloat | simplerobotparser.py:142-142 | every literal `int()` accepts with no space after the sign is accepted by `float()` with the same value |
| Numbers.ParseFloatShow | simplerobotparser.py:142-142 | `float(str(n))` is exactly n |
| Numbers.DigitsAreFloat | simplerobotparser.py:142-142 | `float()` reads a signed plain digit run as its value |
| Numbers.SignedDecimal | simplerobotparser.py:142-142 | a sign in front of a decimal literal, other than a special word, negates the literal's value |
| Numbers.FractionIsDecimal | simplerobotparser.py:142-142 | `digits.digits`, with either run possibly empty but not both, is worth its digits scaled down by ten per fraction digit |
| Numbers.FractionIsUnsignedFloat | simplerobotparser.py:142-142 | the same literal after a sign has been read gives that value, negated for `-` |
| Numbers.FractionIsFloat | simplerobotparser.py:142-142 | `float()` of an optional sign followed by `digits.digits` is that signed value, exactly |
| Numbers.ExponentIsDecimal | simplerobotparser.py:142-142 | a mantissa, then `e` or `E`, then a signed digit run, is the mantissa shifted by that many decimal places |
| Numbers.MantissaShape | simplerobotparser.py:142-142 | an accepted mantissa holds a digit and nothing but digits and the point |
| Numbers.DecimalShape | simplerobotparser.py:142-142 | an accepted unsigned decimal literal holds a digit and nothing but digits, the point, `e`/`E` and signs |
| Numbers.UnsignedFloatShape | simplerobotparser.py:142-142 | what `float()` accepts after the sign is a special word in any letter case or such a decimal literal |
| Numbers.ParseFloatShape | simplerobotparser.py:142-142 | `float()` succeeds only when the stripped text, after an optional sign, is `inf`, `infinity` or `nan` in any letter case, or holds a digit and nothing but digits, the point, `e`/`E` and signs |
| Robots.ReadLine | simplerobotparser.py:61-66 | reading one line either fails with the bad-format `ParseError` message or yields a blank or a key/value token |
| Robots.ReadLineOutcome | simplerobotparser.py:61-64 | a line is skipped exactly when it is whitespace only, and rejected exactly when it is not blank and does not hold exactly one colon |
| Robots.ReadEntry | simplerobotparser.py:62-66 | a line `before:after` with no other colon yields the key `before` stripped and lower-cased and the value `after` stripped |
| Robots.EntryShape | simplerobotparser.py:62-66 | conversely, every key/value token comes from a line with exactly one colon, keyed by the trimmed and lower-cased text before it |
| Robots.UserAgentKeyIsLower | simplerobotparser.py:68-68 | the `user-agent` key compared against is in the lower-cased form keys are stored in |
| Robots.ReadLines | simplerobotparser.py:60-61 | one token per line of the document; `Robots.ReadLinesAt` says which |
| Robots.ReadLinesAt | simplerobotparser.py:60-61 | the i-th token is the reading of the i-th line of the document |
| Robots.ReadLinesErrors | simplerobotparser.py:63-64 | a line can only fail with the bad-format error |
| Robots.Step | simplerobotparser.py:61-78 | one loop iteration keeps the current agent present in the map, and fails exactly on a bad line or on a rule with no current agent, with that line's error or the rule-before-agent error |
| Robots.StepBlank | simplerobotparser.py:61-61 | a blank line changes nothing |
| Robots.StepAgentLine | simplerobotparser.py:68-74 | a `User-agent` line makes its name current and adds an empty entry only for a new name; every existing entry is kept as it was |
| Robots.StepRuleLine | simplerobotparser.py:75-78 | a rule line under a current agent appends exactly that rule to that agent, leaving every other entry and the cursor alone |
| Robots.Run | simplerobotparser.py:59-78 | the loop never drops an agent, and on failure its error is a line's error or the rule-before-agent error |
| Robots.Parse | simplerobotparser.py:54-78 | `parse` only adds agents to the map it started from, and fails only with one of the two parse messages |
| ParseLaws.RunAppend | simplerobotparser.py:60-78 | running the loop over two stretches of lines is running it over the first, then over the second from where the first left off |
| ParseLaws.BlankLineIgnored | simplerobotparser.py:61-61 | inserting a blank token anywhere does not change the outcome of the loop |
| ParseLaws.BlankTextLineIgnored | simplerobotparser.py:61-61 | inserting a whitespace-only line anywhere in the read lines does not change the outcome |
| ParseLaws.RunSucceedsIff | simplerobotparser.py:59-78 | from any state the loop succeeds exactly when every line was read, and, when no agent is current at the start, no rule token comes before the first `User-agent` token |
| ParseLaws.DropBlankHead | simplerobotparser.py:61-61 | a leading blank token does not change whether rules come before the first agent |
| ParseLaws.AddBlankHead | simplerobotparser.py:61-61 | adding a leading blank token does not make a rule come before the first agent |
| ParseLaws.BlankHeadNoRuleBeforeAgent | simplerobotparser.py:61-61 | with a blank first token, rules come before the first agent in the document exactly when they do in the rest |
| ParseLaws.ReadLinesAppend | simplerobotparser.py:60-60 | reading the lines of two stretches of a document is reading each stretch |
| ParseLaws.ParseSucceedsIff | simplerobotparser.py:54-78 | `parse` succeeds exactly when every non-blank line holds exactly one colon and no rule line comes before the first `User-agent` line |
| ParseLaws.RuleFirstFails | simplerobotparser.py:76-77 | a document whose first token is a rule fails with the rule-before-agent message |
| ParseLaws.RunRuleLines | simplerobotparser.py:75-78 | a stretch of rule lines under a current agent appends their rules, in order, to that agent |
| ParseLaws.RepeatedAgentAppends | simplerobotparser.py:69-70 | rules after a repeated `User-agent` line are appended to the section that already exists, and no key is added |
| ParseLaws.OwnedRules | simplerobotparser.py:75-78 | the rules credited to an agent never have the key `user-agent` |
| ParseLaws.DeclaredSnoc | simplerobotparser.py:68-74 | the declared agents of a longer document are the earlier ones plus the name on a new `User-agent` line |
| ParseLaws.CurrentAgentOrigin | simplerobotparser.py:68-74 | the current agent is the one at the start or a name some `User-agent` line declared |
| ParseLaws.UndeclaredOwnsNothing | simplerobotparser.py:75-78 | a name neither declared in the tokens nor current at the start is credited no rules |
| ParseLaws.RunContents | simplerobotparser.py:59-78 | after a successful loop the cursor names the agent of the last `User-agent` line, the keys are the starting keys plus the declared names, and each entry's rules are its starting rules followed by the rules under its `User-agent` lines, in document order |
| ParseLaws.ParseContents | simplerobotparser.py:54-78 | after a successful parse the keys are the earlier keys plus the declared names, each entry's rules are its earlier rules followed by the rules under its `User-agent` lines in document order, and entries stay filed under their own names |
| Policy.KeyIsLower | simplerobotparser.py:94-95 | the directive names the queries look up equal their lower-cased form, so they meet the stored keys |
| Policy.UserAgentNames | simplerobotparser.py:80-81 | `getUserAgents` holds every entry's name and nothing else; when each entry is filed under its own name these are the keys |
| Policy.ParsedUserAgents | simplerobotparser.py:80-81 | after a parse into a fresh parser, `getUserAgents` is exactly the set of names on the document's `User-agent` lines |
| Policy.ValuesOf | simplerobotparser.py:94-95 | a value is in the filtered list exactly when a rule with that key and value is in the section |
| Policy.ValuesOfAppend | simplerobotparser.py:94-95 | filtering keeps rule order: it distributes over concatenation |
| Policy.ValuesOfEmpty | simplerobotparser.py:94-95 | the filtered list is empty exactly when no rule has the key |
| Policy.ValuesOfFirst | simplerobotparser.py:94-95 | the head of the filtered list is the value of the first rule with the key |
| Policy.GetProperty | simplerobotparser.py:83-97 | `None` exactly when the agent has no entry; otherwise the values whose key equals the lower-cased line type, and only those |
| Policy.PropertyEmpty | simplerobotparser.py:93-95 | an agent that has an entry but no rule of the asked kind gets an empty list, not `None` |
| Policy.PropertyOf | simplerobotparser.py:94-95 | looking up one of the four directive names gives that section's filtered rules |
| Policy.CountPrefixes | simplerobotparser.py:108-109 | the count of matching values is positive exactly when some value is a prefix of the url |
| Policy.MatchesIff | simplerobotparser.py:108-109 | some filtered value is a prefix of the url exactly when some rule with the key has a value that is a prefix of the url |
| Policy.IsAllowed | simplerobotparser.py:99-114 | `isAllowed` equals the decision rule on the applicable section: the agent's own section, else `*`'s, else allowed; a matching allow permits, else a matching disallow forbids |
| Policy.Decide | simplerobotparser.py:108-114 | the three-way test allows exactly when some allow value is a prefix of the url or no disallow value is |
| Policy.SectionDecision | simplerobotparser.py:108-114 | for an agent with an entry, the three-way test on the two filtered lists is the decision rule on the section itself |
| Policy.AllowWins | simplerobotparser.py:110-111 | a matching allow value permits even when a disallow value also matches |
| Policy.DisallowForbids | simplerobotparser.py:112-113 | with no matching allow value, one matching disallow value forbids |
| Policy.EmptyDisallowForbidsAll | simplerobotparser.py:108-113 | an empty `Disallow:` value with no allow rule forbids every url |
| Policy.NoRulesAllowAll | simplerobotparser.py:114-114 | a section without rules allows every url |
| Policy.UnknownAgentIsWildcard | simplerobotparser.py:101-103 | an agent without an entry gets exactly the `*` answer |
| Policy.NoSectionAllowsAll | simplerobotparser.py:104-107 | with neither the agent's section nor a `*` section, everything is allowed |
| Policy.CrawlDelay | simplerobotparser.py:118-128 | nothing exactly when the agent has no entry or no `crawl-delay` rule; a failure is always `ValueError` |
| Policy.CrawlDelayFirst | simplerobotparser.py:126-128 | the result is `int()` of the first `crawl-delay` value, whatever the later ones say |
| Policy.CrawlDelayFailsIff | simplerobotparser.py:123-128 | the crawl delay fails, with `ValueError`, exactly when the first `crawl-delay` value is not a text `int()` accepts, and otherwise it is a number |
| Policy.CrawlDelayIgnoresLater | simplerobotparser.py:127-128 | rules added after an existing `crawl-delay` rule leave the crawl delay unchanged |
| Policy.CrawlDelayShow | simplerobotparser.py:127-128 | a first value that is `str(n)` padded with whitespace gives the delay n |
| Policy.RequestRate | simplerobotparser.py:130-144 | nothing exactly when the agent has no entry or no `request-rate` rule; a failure is always the `ParseError` naming the agent |
| Policy.ReadRate | simplerobotparser.py:141-144 | reading a rate value only ever fails with the `ParseError` naming the agent |
| Policy.RequestRateFirst | simplerobotparser.py:138-144 | the result is the reading of the first `request-rate` value, whatever the later ones say |
| Policy.RequestRateIgnoresLater | simplerobotparser.py:139-144 | rules added after an existing `request-rate` rule leave the request rate unchanged |
| Policy.ReadRateBadShape | simplerobotparser.py:141-144 | a value without exactly one `/` is rejected with the `ParseError` naming the agent |
| Policy.ReadRateFields | simplerobotparser.py:141-144 | a value `R/S` gives the pair `float(R)`, `float(S)`, and is rejected when either conversion fails |
| Policy.ReadRateNotNumber | simplerobotparser.py:141-144 | a value `R/S` where either field lacks the shape of a number is rejected with the `ParseError` naming the agent |
| Policy.ReadRateShow | simplerobotparser.py:141-142 | `str(n) + "/" + str(d)` is read back as the pair (n, d) |
| Policy.RequestRateShow | simplerobotparser.py:135-142 | a first `request-rate` value written `n/d` gives the pair (n, d) |
| Robots.Render | simplerobotparser.py:152-154 | `UserAgent.__str__`; it carries no contract of its own, and `RenderLaws.RenderRoundTrip` proves that parsing undoes it |
| RenderLaws.StripAfterSpace | simplerobotparser.py:152-154 | `strip()` removes exactly the single space the printer puts before a value |
| RenderLaws.ReadRuleText | simplerobotparser.py:152-154 | a printed `key: value` line reads back as that very rule |
| RenderLaws.ReadHeader | simplerobotparser.py:68-74 | a `user-agent: name` header line reads back as a `User-agent` line for that name |
| RenderLaws.RenderedLines | simplerobotparser.py:152-154 | a printed section splits into the header line followed by one line per rule, or by one empty line when there are no rules |
| RenderLaws.RunSection | simplerobotparser.py:68-78 | a `User-agent` line followed by the section's lines, run from an empty map, leaves just that section |
| RenderLaws.RenderRoundTrip | simplerobotparser.py:152-154 | a section the parser could have built, printed and parsed back after a `user-agent: ` header, gives a map holding just that section under its name |

## Left out

- `fetchUrl` and `fetchLocal` are not modelled, because they are network and file I/O. `Parse` takes the document text as a parameter.
- `RobotExclusion` and the `__main__` block are not modelled. They fetch the file with the unmodelled `fetchUrl` or `fetchLocal` and then call the modelled operations; `__main__` also prints the results.
- `RobotFileParser.__str__` is not modelled. It joins the dictionary's keys, which are agent names rather than sections, and its output depends on dictionary order.
- `ParseError.__init__` is not modelled; the error is the datatype constructor `ParseError(msg)`.
- The partial update of a failing parse is not modelled. The Python object keeps the agents and rules added before the bad line, but `Parse` returns only the error. `Run` states which error that is.
- Policy.UserAgentNames: returns a set. The source returns a list in dictionary order, and that order is not modelled.
- Policy.IsAllowed: requires that every entry is filed under its own name. Every map built by `parse` satisfies this (`ParseLaws.ParseContents`). On any other map the source's name test and its lookup can disagree in two ways, neither modelled. A name that `getUserAgents()` lists but that is not a key makes `getProperty` return `None`, and iterating it raises `TypeError`. A key whose entry carries another name is not listed, so the source falls back to `'*'` (lines 101-103) without raising.
- Policy.RequestRate: returns the two parsed numbers (R, S) rather than the quotient `float(R)/float(S)`. Floating-point division, its rounding, and the uncaught `ZeroDivisionError` for S = 0 are left out. Because the pair keeps each number's written form, two results compare equal only when they are written alike: `1/2` gives `(Finite(1, 0), Finite(2, 0))` and `1.0/2` gives `(Finite(10, -1), Finite(2, 0))`, although Python returns 0.5 for both.
- Numbers.ParseFloat: models finite values exactly, as coefficient × 10^exponent. Rounding to IEEE doubles and overflow to infinity are left out. The representation is not canonical: `1.0` and `1` are different `Float` values, and `-0` becomes `Finite(0, 0)`, losing the sign of negative zero.
- Numbers.ParseInt: leaves out CPython 2's acceptance of a trailing `L` on values that overflow a C long, because it depends on the machine's word size. Python 2's switch between `int` and `long` is invisible here, because integers are unbounded.
- Text.Lower: folds ASCII letters only; the locale-dependent `lower()` of non-ASCII bytes is left out. Strings are sequences of characters standing for bytes, and no encoding is modelled.
