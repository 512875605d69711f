/** The rule text of a `CronSquatter` (`parseFormat`): one rule per line,
    `<size>:<cron pattern>:<minutes>`, blank lines and `#` comments
    ignored. The parse is all or nothing: the first bad rule line stops
    it, and no entries are produced. */
module RuleFormat {
  import opened Results
  import opened JavaStrings
  import opened Cron
  import opened Entries

  /** Durations are written in minutes and stored in milliseconds:
      `minutes * 60 * 1000`, on unbounded integers. */
  function MinutesToMillis(minutes: int): int {
    minutes * 60 * 1000
  }

  /** The conversion loses nothing: the minutes are recovered by division,
      and the sign is kept. */
  lemma MinutesToMillisExact(minutes: int)
    ensures MinutesToMillis(minutes) % 60000 == 0
    ensures MinutesToMillis(minutes) / 60000 == minutes
    ensures minutes >= 0 <==> MinutesToMillis(minutes) >= 0
  {
  }

  /** Why a rule line was refused. */
  datatype Reason =
    | TokenCount(found: nat)       // not exactly three ':'-separated tokens
    | BadSize(token: string)       // neither `*` nor an `int`
    | BadPattern(message: string)  // the cron library's diagnostic
    | BadDuration(token: string)   // not a `long` number of minutes

  /** A refused rule, with its 1-based line number. */
  datatype ParseError = ParseError(line: nat, reason: Reason)

  /** The cron library's pattern constructor, `new CronTab(text, line)`,
      which is handed the trimmed pattern token and the line number. */
  type PatternParser = (string, nat) -> Result<CronTab, string>

  /** A line that holds no rule: blank once trimmed, or a `#` comment. */
  predicate Ignorable(line: string) {
    var t := Trim(line);
    t == [] || t[0] == '#'
  }

  /** The size token: `*` for all executors, otherwise `Integer.parseInt`. */
  function ParseSize(token: string): Option<int> {
    if token == "*" then Some(AllExecutors) else ParseDecimal(token, IntMin, IntMax)
  }

  /** One trimmed, non-ignorable rule line. Its three tokens are read in
      the order Java evaluates the `Entry` constructor's arguments: size,
      then pattern, then minutes; the first one that fails names the
      error. */
  function ParseRule(line: string, lineNumber: nat, parsePattern: PatternParser): (r: Result<Entry, ParseError>)
    ensures r.Err? ==> r.error.line == lineNumber
    ensures |JavaSplit(line, ':')| != 3 ==> r == Err(ParseError(lineNumber, TokenCount(|JavaSplit(line, ':')|)))
  {
    var tokens := JavaSplit(line, ':');
    if |tokens| != 3 then
      Err(ParseError(lineNumber, TokenCount(|tokens|)))
    else
      var sizeToken, patternToken, minutesToken := Trim(tokens[0]), Trim(tokens[1]), Trim(tokens[2]);
      match ParseSize(sizeToken)
      case None => Err(ParseError(lineNumber, BadSize(sizeToken)))
      case Some(size) =>
        match parsePattern(patternToken, lineNumber)
        case Err(message) => Err(ParseError(lineNumber, BadPattern(message)))
        case Ok(cron) =>
          match ParseDecimal(minutesToken, LongMin, LongMax)
          case None => Err(ParseError(lineNumber, BadDuration(minutesToken)))
          case Some(minutes) => Ok(Entry(size, cron, MinutesToMillis(minutes)))
  }

  /** The outcome of a three-token line, field by field in the order Java
      evaluates the `Entry` constructor's arguments: a bad size is reported
      first, then a bad pattern, then a bad minute count; a line whose
      three fields all parse is accepted, whatever their spelling. */
  lemma ParseRuleOutcome(line: string, lineNumber: nat, parsePattern: PatternParser)
    ensures var tokens := JavaSplit(line, ':');
            |tokens| == 3 && ParseSize(Trim(tokens[0])).None?
            ==> ParseRule(line, lineNumber, parsePattern) == Err(ParseError(lineNumber, BadSize(Trim(tokens[0]))))
    ensures var tokens := JavaSplit(line, ':');
            |tokens| == 3 && ParseSize(Trim(tokens[0])).Some?
            && parsePattern(Trim(tokens[1]), lineNumber).Err?
            ==> ParseRule(line, lineNumber, parsePattern)
                == Err(ParseError(lineNumber, BadPattern(parsePattern(Trim(tokens[1]), lineNumber).error)))
    ensures var tokens := JavaSplit(line, ':');
            |tokens| == 3 && ParseSize(Trim(tokens[0])).Some?
            && parsePattern(Trim(tokens[1]), lineNumber).Ok?
            && ParseDecimal(Trim(tokens[2]), LongMin, LongMax).None?
            ==> ParseRule(line, lineNumber, parsePattern) == Err(ParseError(lineNumber, BadDuration(Trim(tokens[2]))))
    ensures var tokens := JavaSplit(line, ':');
            |tokens| == 3 && ParseSize(Trim(tokens[0])).Some?
            && parsePattern(Trim(tokens[1]), lineNumber).Ok?
            && ParseDecimal(Trim(tokens[2]), LongMin, LongMax).Some?
            ==> ParseRule(line, lineNumber, parsePattern)
                == Ok(Entry(ParseSize(Trim(tokens[0])).value,
                            parsePattern(Trim(tokens[1]), lineNumber).value,
                            MinutesToMillis(ParseDecimal(Trim(tokens[2]), LongMin, LongMax).value)))
  {
  }

  /** Where a parsed entry's fields come from: the size is -1 for a `*`
      token and the token's `int` value otherwise (so a negative number is
      accepted too), the pattern is what the cron library built from the
      middle token, and the duration is the last token's `long` value in
      minutes, times 60000. */
  lemma ParseRuleFields(line: string, lineNumber: nat, parsePattern: PatternParser)
    requires ParseRule(line, lineNumber, parsePattern).Ok?
    ensures var e, tokens := ParseRule(line, lineNumber, parsePattern).value, JavaSplit(line, ':');
            && |tokens| == 3
            && (Trim(tokens[0]) == "*" ==> e.size == AllExecutors)
            && (Trim(tokens[0]) != "*" ==> ParseDecimal(Trim(tokens[0]), IntMin, IntMax) == Some(e.size))
            && IntMin <= e.size <= IntMax
            && parsePattern(Trim(tokens[1]), lineNumber) == Ok(e.cron)
            && ParseDecimal(Trim(tokens[2]), LongMin, LongMax).Some?
            && e.duration == MinutesToMillis(ParseDecimal(Trim(tokens[2]), LongMin, LongMax).value)
  {
  }

  /** How a size is written: `*` for all executors, otherwise the number. */
  function SizeText(size: int): string {
    if size == AllExecutors then "*" else ShowDecimal(size)
  }

  /** The text of a rule: its size, pattern and minutes joined by `:`. */
  function RenderRule(size: int, pattern: string, minutes: int): string {
    SizeText(size) + ":" + pattern + ":" + ShowDecimal(minutes)
  }

  /** A written size is a non-empty trimmed token without `:`, starting
      with `*`, `-` or a digit. */
  lemma SizeTextShape(size: int)
    ensures var text := SizeText(size);
            && text != [] && IsTrimmed(text) && ':' !in text
            && (text[0] == '*' || text[0] == '-' || IsDigit(text[0]))
  {
    if size != AllExecutors {
      ShowDecimalShape(size);
      assert ShowDecimal(size)[0] in ShowDecimal(size);
    }
  }

  /** A written size reads back as the same size. */
  lemma SizeTextRoundTrip(size: int)
    requires IntMin <= size <= IntMax
    ensures ParseSize(Trim(SizeText(size))) == Some(size)
  {
    var text := SizeText(size);
    SizeTextShape(size);
    if size != AllExecutors {
      DecimalRoundTrip(size, IntMin, IntMax);
      assert text[0] == '-' || IsDigit(text[0]);
      assert text != "*";
    }
    TrimIdempotent(text);
  }

  /** A written minute count reads back as the same count. */
  lemma MinutesTextRoundTrip(minutes: int)
    requires LongMin <= minutes <= LongMax
    ensures ParseDecimal(Trim(ShowDecimal(minutes)), LongMin, LongMax) == Some(minutes)
  {
    ShowDecimalShape(minutes);
    DecimalRoundTrip(minutes, LongMin, LongMax);
    TrimIdempotent(ShowDecimal(minutes));
  }

  /** A written rule is a trimmed rule line that splits into its three
      parts. */
  lemma RenderedRuleTokens(size: int, pattern: string, minutes: int)
    requires ':' !in pattern
    ensures var line := RenderRule(size, pattern, minutes);
            && Trim(line) == line
            && !Ignorable(line)
            && JavaSplit(line, ':') == [SizeText(size), pattern, ShowDecimal(minutes)]
  {
    var sizeText, minutesText := SizeText(size), ShowDecimal(minutes);
    var line := RenderRule(size, pattern, minutes);
    SizeTextShape(size);
    ShowDecimalShape(minutes);
    assert line == sizeText + [':'] + pattern + [':'] + minutesText;
    assert line[0] == sizeText[0] && line[|line| - 1] == minutesText[|minutesText| - 1];
    TrimIdempotent(line);
    assert line[0] != '#';
    SplitThree(sizeText, pattern, minutesText, ':');
  }

  /** Writing a rule out and parsing it back gives the entry it describes,
      for every size and minute count the Java types can hold. */
  lemma ParseRenderedRule(size: int, pattern: string, minutes: int, lineNumber: nat,
                          parsePattern: PatternParser, cron: CronTab)
    requires IntMin <= size <= IntMax && LongMin <= minutes <= LongMax
    requires ':' !in pattern && IsTrimmed(pattern)
    requires parsePattern(pattern, lineNumber) == Ok(cron)
    ensures !Ignorable(RenderRule(size, pattern, minutes))
    ensures ParseRule(Trim(RenderRule(size, pattern, minutes)), lineNumber, parsePattern)
            == Ok(Entry(size, cron, MinutesToMillis(minutes)))
  {
    RenderedRuleTokens(size, pattern, minutes);
    SizeTextRoundTrip(size);
    MinutesTextRoundTrip(minutes);
    TrimIdempotent(pattern);
  }

  /** The rule lines of `lines`, trimmed and paired with their line
      numbers, counting from `first`. */
  function RuleLines(lines: seq<string>, first: nat): (r: seq<(nat, string)>)
    ensures |r| <= |lines|
    decreases |lines|
  {
    if lines == [] then []
    else if Ignorable(lines[0]) then RuleLines(lines[1..], first + 1)
    else [(first, Trim(lines[0]))] + RuleLines(lines[1..], first + 1)
  }

  /** `rl` is line `rl.0` of `lines` (numbered from `first`), holding a
      rule, trimmed. */
  predicate IsRuleLineOf(rl: (nat, string), lines: seq<string>, first: nat) {
    && first <= rl.0 < first + |lines|
    && !Ignorable(lines[rl.0 - first])
    && rl.1 == Trim(lines[rl.0 - first])
  }

  /** Each rule line is a non-ignorable line, trimmed, under its own line
      number, and it comes after `first`'s predecessors. */
  lemma {:induction false} RuleLineAt(lines: seq<string>, first: nat, j: nat)
    requires j < |RuleLines(lines, first)|
    ensures IsRuleLineOf(RuleLines(lines, first)[j], lines, first)
    decreases |lines|
  {
    var r, rest := RuleLines(lines, first), RuleLines(lines[1..], first + 1);
    if !Ignorable(lines[0]) && j == 0 {
      assert r[0] == (first, Trim(lines[0]));
    } else {
      var j' := if Ignorable(lines[0]) then j else j - 1;
      assert r[j] == rest[j'];
      RuleLineAt(lines[1..], first + 1, j');
      assert lines[1..][r[j].0 - (first + 1)] == lines[r[j].0 - first];
    }
  }

  /** The rule lines keep their textual order: line numbers strictly
      increase. */
  lemma {:induction false} RuleLinesOrdered(lines: seq<string>, first: nat)
    ensures forall j, k :: 0 <= j < k < |RuleLines(lines, first)| ==>
              RuleLines(lines, first)[j].0 < RuleLines(lines, first)[k].0
    decreases |lines|
  {
    if lines != [] {
      var r, rest := RuleLines(lines, first), RuleLines(lines[1..], first + 1);
      RuleLinesOrdered(lines[1..], first + 1);
      forall j | 0 <= j < |rest|
        ensures first < rest[j].0
      {
        RuleLineAt(lines[1..], first + 1, j);
      }
      if !Ignorable(lines[0]) {
        assert r == [(first, Trim(lines[0]))] + rest;
        forall j | 0 < j < |r|
          ensures r[j] == rest[j - 1]
        {
        }
      }
    }
  }

  /** Every rule line is a non-ignorable line of the text, trimmed, under
      its own line number. */
  lemma RuleLinesSound(lines: seq<string>, first: nat)
    ensures forall j :: 0 <= j < |RuleLines(lines, first)| ==>
              IsRuleLineOf(RuleLines(lines, first)[j], lines, first)
  {
    forall j | 0 <= j < |RuleLines(lines, first)|
      ensures IsRuleLineOf(RuleLines(lines, first)[j], lines, first)
    {
      RuleLineAt(lines, first, j);
    }
  }

  /** A text of blank lines and comments has no rule lines. */
  lemma {:induction false} NoRuleLines(lines: seq<string>, first: nat)
    requires forall k :: 0 <= k < |lines| ==> Ignorable(lines[k])
    ensures RuleLines(lines, first) == []
    decreases |lines|
  {
    if lines != [] {
      assert Ignorable(lines[0]);
      assert forall k :: 0 <= k < |lines[1..]| ==> lines[1..][k] == lines[k + 1];
      NoRuleLines(lines[1..], first + 1);
    }
  }

  /** No rule is lost: every non-ignorable line appears among the rule
      lines, under its line number. */
  lemma {:induction false} RuleLinesComplete(lines: seq<string>, first: nat, i: nat)
    requires i < |lines| && !Ignorable(lines[i])
    ensures exists j :: 0 <= j < |RuleLines(lines, first)| && RuleLines(lines, first)[j].0 == first + i
    decreases |lines|
  {
    var r, rest := RuleLines(lines, first), RuleLines(lines[1..], first + 1);
    if i == 0 {
      assert r[0].0 == first + i;
    } else {
      assert !Ignorable(lines[1..][i - 1]);
      RuleLinesComplete(lines[1..], first + 1, i - 1);
      var j :| 0 <= j < |rest| && rest[j].0 == first + 1 + (i - 1);
      if Ignorable(lines[0]) {
        assert r[j].0 == first + i;
      } else {
        assert r[j + 1].0 == first + i;
      }
    }
  }

  /** Parses the lines of a rule text; `first` is the number of `lines[0]`. */
  function ParseLines(lines: seq<string>, first: nat, parsePattern: PatternParser): (r: Result<seq<Entry>, ParseError>)
    ensures r.Ok? ==> |r.value| <= |lines|
    ensures r.Err? ==> first <= r.error.line < first + |lines|
    decreases |lines|
  {
    if lines == [] then Ok([])
    else
      var later := ParseLines(lines[1..], first + 1, parsePattern);
      if Ignorable(lines[0]) then later
      else
        match ParseRule(Trim(lines[0]), first, parsePattern)
        case Err(e) => Err(e)
        case Ok(entry) =>
          match later
          case Err(e) => Err(e)
          case Ok(rest) => Ok([entry] + rest)
  }

  /** The rule lines parsed one after the other, stopping at the first
      that fails. */
  function ParseRules(rls: seq<(nat, string)>, parsePattern: PatternParser): Result<seq<Entry>, ParseError>
  {
    if rls == [] then Ok([])
    else
      match ParseRule(rls[0].1, rls[0].0, parsePattern)
      case Err(e) => Err(e)
      case Ok(entry) =>
        match ParseRules(rls[1..], parsePattern)
        case Err(e) => Err(e)
        case Ok(rest) => Ok([entry] + rest)
  }

  /** Parsing the text line by line is parsing its rule lines in order:
      ignorable lines contribute nothing but their line number. */
  lemma {:induction false} ParseLinesViaRuleLines(lines: seq<string>, first: nat, parsePattern: PatternParser)
    ensures ParseLines(lines, first, parsePattern) == ParseRules(RuleLines(lines, first), parsePattern)
    decreases |lines|
  {
    if lines != [] {
      ParseLinesViaRuleLines(lines[1..], first + 1, parsePattern);
      if !Ignorable(lines[0]) {
        var rls := RuleLines(lines, first);
        assert rls[0] == (first, Trim(lines[0]));
        assert rls[1..] == RuleLines(lines[1..], first + 1);
      }
    }
  }

  /** The rule line `rl` (its number and trimmed text) parses. */
  predicate RuleParses(rl: (nat, string), parsePattern: PatternParser) {
    ParseRule(rl.1, rl.0, parsePattern).Ok?
  }

  /** Position of the first rule line in `rls` that does not parse, or
      `|rls|` when all of them parse. */
  function FirstBad(rls: seq<(nat, string)>, parsePattern: PatternParser): (k: nat)
    ensures k <= |rls|
    ensures k < |rls| ==> !RuleParses(rls[k], parsePattern)
  {
    if rls == [] then 0
    else if !RuleParses(rls[0], parsePattern) then 0
    else
      var k := 1 + FirstBad(rls[1..], parsePattern);
      assert k < |rls| ==> rls[1..][k - 1] == rls[k];
      k
  }

  /** Every rule line before the first bad one parses: `FirstBad` is the
      first, not just some, failing position. */
  lemma {:induction false} FirstBadIsFirst(rls: seq<(nat, string)>, parsePattern: PatternParser)
    ensures forall i :: 0 <= i < FirstBad(rls, parsePattern) ==> RuleParses(rls[i], parsePattern)
  {
    if rls != [] && RuleParses(rls[0], parsePattern) {
      FirstBadIsFirst(rls[1..], parsePattern);
      forall i | 1 <= i < FirstBad(rls, parsePattern)
        ensures RuleParses(rls[i], parsePattern)
      {
        assert rls[1..][i - 1] == rls[i];
      }
    }
  }

  /** All or nothing: the rule lines parse exactly when none of them
      fails. */
  lemma {:induction false} ParseRulesOkIff(rls: seq<(nat, string)>, parsePattern: PatternParser)
    ensures ParseRules(rls, parsePattern).Ok? <==> FirstBad(rls, parsePattern) == |rls|
  {
    if rls != [] && RuleParses(rls[0], parsePattern) {
      ParseRulesOkIff(rls[1..], parsePattern);
    }
  }

  /** On success there is one entry per rule line, in the same order, each
      the entry its own line parses to. */
  lemma {:induction false} ParseRulesEntries(rls: seq<(nat, string)>, parsePattern: PatternParser)
    requires ParseRules(rls, parsePattern).Ok?
    ensures |ParseRules(rls, parsePattern).value| == |rls|
    ensures forall j :: 0 <= j < |rls| ==>
              ParseRule(rls[j].1, rls[j].0, parsePattern) == Ok(ParseRules(rls, parsePattern).value[j])
  {
    if rls != [] {
      ParseRulesEntries(rls[1..], parsePattern);
      var es, rest := ParseRules(rls, parsePattern).value, ParseRules(rls[1..], parsePattern).value;
      assert es == [es[0]] + rest;
      forall j | 0 < j < |rls|
        ensures ParseRule(rls[j].1, rls[j].0, parsePattern) == Ok(es[j])
      {
        assert rls[j] == rls[1..][j - 1];
        assert es[j] == rest[j - 1];
      }
    }
  }

  /** On failure the error is that of the first rule line that does not
      parse. */
  lemma {:induction false} ParseRulesFirstError(rls: seq<(nat, string)>, parsePattern: PatternParser)
    requires ParseRules(rls, parsePattern).Err?
    ensures FirstBad(rls, parsePattern) < |rls|
    ensures ParseRule(rls[FirstBad(rls, parsePattern)].1, rls[FirstBad(rls, parsePattern)].0, parsePattern)
            == Err(ParseRules(rls, parsePattern).error)
  {
    if RuleParses(rls[0], parsePattern) {
      ParseRulesFirstError(rls[1..], parsePattern);
      var k := FirstBad(rls[1..], parsePattern);
      assert rls[k + 1] == rls[1..][k];
    }
  }

  /** `parseFormat`: the whole rule text, its lines numbered from 1. */
  function ParseFormat(format: string, parsePattern: PatternParser): (r: Result<seq<Entry>, ParseError>)
  {
    ParseLines(SplitLines(format), 1, parsePattern)
  }

  /** What `parseFormat` promises, in terms of the rule lines of the text
      (its non-ignorable lines, trimmed, numbered from 1): it succeeds
      exactly when every rule line parses, and then yields one entry per
      rule line in textual order; otherwise it reports the error of the
      first rule line that fails and yields no entries. */
  lemma ParseFormatSpec(format: string, parsePattern: PatternParser)
    ensures var rls, r := RuleLines(SplitLines(format), 1), ParseFormat(format, parsePattern);
            r.Ok? <==> FirstBad(rls, parsePattern) == |rls|
    ensures var rls, r := RuleLines(SplitLines(format), 1), ParseFormat(format, parsePattern);
            r.Ok? ==> |r.value| == |rls|
                      && forall j :: 0 <= j < |rls| ==> ParseRule(rls[j].1, rls[j].0, parsePattern) == Ok(r.value[j])
    ensures var rls, r := RuleLines(SplitLines(format), 1), ParseFormat(format, parsePattern);
            r.Err? ==> var k := FirstBad(rls, parsePattern);
                       k < |rls| && ParseRule(rls[k].1, rls[k].0, parsePattern) == Err(r.error)
  {
    var rls := RuleLines(SplitLines(format), 1);
    ParseLinesViaRuleLines(SplitLines(format), 1, parsePattern);
    ParseRulesOkIff(rls, parsePattern);
    if ParseRules(rls, parsePattern).Ok? {
      ParseRulesEntries(rls, parsePattern);
    } else {
      ParseRulesFirstError(rls, parsePattern);
    }
  }

  /** The line an error names is a rule line of the text, never a blank
      line or a comment. */
  lemma ParseFormatErrorLine(format: string, parsePattern: PatternParser)
    requires ParseFormat(format, parsePattern).Err?
    ensures var lines, e := SplitLines(format), ParseFormat(format, parsePattern).error;
            1 <= e.line <= |lines| && !Ignorable(lines[e.line - 1])
  {
    var lines := SplitLines(format);
    ParseLinesViaRuleLines(lines, 1, parsePattern);
    RuleLinesErrorLine(lines, 1, parsePattern);
  }

  /** `ParseFormatErrorLine` for the rule lines of `lines`, numbered from
      `first`. */
  lemma RuleLinesErrorLine(lines: seq<string>, first: nat, parsePattern: PatternParser)
    requires ParseRules(RuleLines(lines, first), parsePattern).Err?
    ensures var e := ParseRules(RuleLines(lines, first), parsePattern).error;
            first <= e.line < first + |lines| && !Ignorable(lines[e.line - first])
  {
    var rls := RuleLines(lines, first);
    ParseRulesErrorLine(rls, parsePattern);
    var k := FirstBad(rls, parsePattern);
    RuleLineAt(lines, first, k);
    var n := ParseRules(rls, parsePattern).error.line;
    assert n == rls[k].0;
    assert IsRuleLineOf(rls[k], lines, first);
  }

  /** The line number a failed parse of rule lines reports is that of its
      first bad rule line. */
  lemma {:induction false} ParseRulesErrorLine(rls: seq<(nat, string)>, parsePattern: PatternParser)
    requires ParseRules(rls, parsePattern).Err?
    ensures FirstBad(rls, parsePattern) < |rls|
    ensures ParseRules(rls, parsePattern).error.line == rls[FirstBad(rls, parsePattern)].0
  {
    if RuleParses(rls[0], parsePattern) {
      ParseRulesErrorLine(rls[1..], parsePattern);
      assert rls[1 + FirstBad(rls[1..], parsePattern)] == rls[1..][FirstBad(rls[1..], parsePattern)];
    }
  }

  /** Blank lines and comments are skipped: a text holding nothing else
      yields no entries and no error, whatever the pattern library. */
  lemma OnlyCommentsParseEmpty(format: string, parsePattern: PatternParser)
    requires forall k :: 0 <= k < |SplitLines(format)| ==> Ignorable(SplitLines(format)[k])
    ensures ParseFormat(format, parsePattern) == Ok([])
  {
    NoRuleLines(SplitLines(format), 1);
    ParseLinesViaRuleLines(SplitLines(format), 1, parsePattern);
  }
}
