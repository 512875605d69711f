# CronSquatter reservation evaluator, in Dafny

This project models `CronSquatter`, the part of the slave-squatter plugin that
holds back executors of a build node on a cron-like schedule. A squatter is
configured with a rule text, one rule per line:

    <size>:<cron pattern>:<minutes>

Blank lines and lines starting with `#` are skipped. Each rule line becomes an
`Entry`. The entry has:

- a size: `*` is stored as -1 and means "all executors";
- a cron pattern;
- a duration in milliseconds.

Every occurrence of the pattern opens a window of that duration. The squatter
answers two questions the host scheduler asks:

- `sizeOfReservation(node, t)`: the sum over all entries of what each holds at
  `t`;
- `timeOfNextChange(node, t)`: the earliest instant at which that sum may
  change. With no entries this is `Long.MAX_VALUE`.

Modules, one per file:

- `Results` (`results.dfy`): the `Option` and `Result` types.
- `JavaStrings` (`java_strings.dfy`): the Java library behaviour the parser
  depends on.
  - `String.trim`: drops chars up to `' '` at both ends.
  - `String.split(":")`: a text without the separator comes back whole, and
    trailing empty pieces are dropped.
  - `split("\\r?\\n")`.
  - `Integer.parseInt` and `Long.parseLong`.
- `Cron` (`cron.dfy`): the cron library is outside the model.
  - A parsed pattern is its matching instants plus its `floor`/`ceil` searches.
  - `Valid` states what the library is assumed to guarantee: `floor(t)` is the
    latest match at or before `t`, and `ceil(t)` the earliest match at or after
    `t`.
  - `Periodic` is a concrete pattern that meets that contract.
- `Entries` (`entries.dfy`): `CronSquatter.Entry` and its three methods.
- `RuleFormat` (`rule_format.dfy`): `parseFormat`, as a line loop.
  - Its properties are stated over the "rule lines": the non-ignorable lines,
    trimmed and paired with their line numbers.
- `CronSquatter` (`squatter.dfy`): the squatter, with the two aggregate loops
  as methods and their properties as lemmas.
- `Scenarios` (`scenarios.dfy`): worked examples on concrete schedules.

The model follows the code, including where it accepts more than the format
described above:

- A size token is read with `Integer.parseInt`, so negative numbers are
  accepted. Any negative size means "all executors", and the token `-1` reads
  exactly like `*`.
- A minutes token is read with `Long.parseLong`, so negative durations are
  accepted too. Such a window is always empty.
- An entry only looks at the window opened by the latest occurrence at or
  before `t`. When one entry's windows overlap, the entry still holds its size
  once, not once per window (`Entries.ActiveIffCovered`). Different entries
  are summed without a cap.

## Model

Every row cites `CronSquatter.java`, by its path from the repository root.

| member | source | states |
|---|---|---|
| Entries.ReservationSize | src/main/java/hudson/plugins/slave_squatter/squatters/CronSquatter.java:67-70 | A negative stored size resolves to the node's executor count; any other size is returned as stored; the result is never negative. |
| Entries.SizeOfReservation | src/main/java/hudson/plugins/slave_squatter/squatters/CronSquatter.java:72-77 | The entry holds all of its resolved size while `t` lies in `[floor(t), floor(t) + duration)` and nothing otherwise. |
| Entries.TimeOfNextChange | src/main/java/hudson/plugins/slave_squatter/squatters/CronSquatter.java:79-85 | The answer is never after the next occurrence (`ceil(t)`). When the current window is still open, it is never after that window's close. It is either the next occurrence or a window close lying after `t`. |
| Entries.ActiveIffCovered | src/main/java/hudson/plugins/slave_squatter/squatters/CronSquatter.java:72-77 | Given the cron contract, testing only the latest occurrence's window is the same as asking whether any occurrence's window covers `t`, so overlapping windows of one entry count once. |
| Entries.NextChangeNotBefore | src/main/java/hudson/plugins/slave_squatter/squatters/CronSquatter.java:79-85 | Given the cron contract, an entry's next change is never before `t`. |
| Entries.NextChangeIsNowIffOccurrence | src/main/java/hudson/plugins/slave_squatter/squatters/CronSquatter.java:79-85 | The next change is `t` itself exactly when `t` is an occurrence of the pattern. |
| Entries.EntryStableUntilNextChange | src/main/java/hudson/plugins/slave_squatter/squatters/CronSquatter.java:72-85 | For every node, the entry holds at every `u` in `[t, next change)` exactly what it holds at `t`. |
| Entries.NextChangeIsEventBoundary | src/main/java/hudson/plugins/slave_squatter/squatters/CronSquatter.java:79-85 | A next change after `t` is a real event: either the window flips between the instant before and that instant, or a new occurrence starts there. |
| Cron.ExactMatch | src/main/java/hudson/plugins/slave_squatter/squatters/CronSquatter.java:73-81 | Under the library contract, `floor` and `ceil` return `t` itself exactly when `t` matches. |
| Cron.FloorStable | src/main/java/hudson/plugins/slave_squatter/squatters/CronSquatter.java:73-81 | Under the library contract, `floor` returns the same occurrence anywhere between `t` and the next occurrence. |
| Cron.PeriodicValid | src/main/java/hudson/plugins/slave_squatter/squatters/CronSquatter.java:73-81 | A pattern firing every `period` milliseconds meets the library contract, so the contract the other lemmas assume can be met. |
| JavaStrings.Trim | src/main/java/hudson/plugins/slave_squatter/squatters/CronSquatter.java:104 | The trimmed line neither starts nor ends with a char up to `' '`, and is no longer than the line. |
| JavaStrings.TrimIsInfix | src/main/java/hudson/plugins/slave_squatter/squatters/CronSquatter.java:104 | `trim` keeps an infix of the text and cuts only trimmable chars on either side. |
| JavaStrings.TrimIdempotent | src/main/java/hudson/plugins/slave_squatter/squatters/CronSquatter.java:104 | Trimming an already trimmed string changes nothing; trimming twice is trimming once. |
| JavaStrings.JoinPieces | src/main/java/hudson/plugins/slave_squatter/squatters/CronSquatter.java:108 | Cutting a text at every separator loses nothing: joining the pieces restores it. |
| JavaStrings.PiecesJoin | src/main/java/hudson/plugins/slave_squatter/squatters/CronSquatter.java:108 | Separator-free pieces are recovered exactly from their join. |
| JavaStrings.PiecesJoinFree | src/main/java/hudson/plugins/slave_squatter/squatters/CronSquatter.java:108 | The same recovery, for pieces that are separator-free one by one. |
| JavaStrings.PiecesAfter | src/main/java/hudson/plugins/slave_squatter/squatters/CronSquatter.java:108 | A separator-free first piece is cut off whole at the separator after it. |
| JavaStrings.DropTrailingEmptySpec | src/main/java/hudson/plugins/slave_squatter/squatters/CronSquatter.java:108 | `split` keeps a prefix of the pieces that is empty or ends in a non-empty piece, and drops only empty pieces. |
| JavaStrings.TrailingSeparatorDropped | src/main/java/hudson/plugins/slave_squatter/squatters/CronSquatter.java:108-109 | `a:b:` splits into the two tokens `a` and `b`, so a trailing separator does not add a token. |
| JavaStrings.SplitThree | src/main/java/hudson/plugins/slave_squatter/squatters/CronSquatter.java:108-109 | Three separator-free tokens, the last non-empty, joined with `:` split back into exactly those three tokens. |
| JavaStrings.JavaSplit | src/main/java/hudson/plugins/slave_squatter/squatters/CronSquatter.java:108 | `line.split(":")`: a text without `:` comes back whole, otherwise the pieces less the trailing empty ones. Its contract is carried by `JavaStrings.JavaSplitToken`, `JavaStrings.DropTrailingEmptySpec`, `JavaStrings.JoinPieces`, `JavaStrings.TrailingSeparatorDropped` and `JavaStrings.SplitThree`. |
| JavaStrings.JavaSplitToken | src/main/java/hudson/plugins/slave_squatter/squatters/CronSquatter.java:108 | Each token `split` returns is the piece at the same position of the text cut at every separator, and contains no separator. |
| JavaStrings.PieceAt | src/main/java/hudson/plugins/slave_squatter/squatters/CronSquatter.java:108 | No piece of a text cut at every separator contains the separator. |
| JavaStrings.IndexOfFirst | src/main/java/hudson/plugins/slave_squatter/squatters/CronSquatter.java:108 | The cut is made at the first separator: none occurs before it. |
| JavaStrings.StripCarriageReturnsAt | src/main/java/hudson/plugins/slave_squatter/squatters/CronSquatter.java:102 | Splitting on `\r?\n` removes one closing `'\r'` from every line but the last, which is kept as it is. |
| JavaStrings.SplitLines | src/main/java/hudson/plugins/slave_squatter/squatters/CronSquatter.java:102 | `format.split("\\r?\\n")`. A text without a newline is a single line, even when empty. The rest of its contract is carried by `JavaStrings.StripCarriageReturnsAt`, `JavaStrings.DropTrailingEmptySpec` and `JavaStrings.SplitJoinedLines`. |
| JavaStrings.SplitJoinedLines | src/main/java/hudson/plugins/slave_squatter/squatters/CronSquatter.java:102 | Lines that have no newline and no closing `'\r'`, the last one non-empty, come back unchanged when joined with newlines and split again. |
| JavaStrings.ParseDecimal | src/main/java/hudson/plugins/slave_squatter/squatters/CronSquatter.java:116-118 | A parsed number lies in the `int`/`long` range, and its text is an optional sign followed by one or more ASCII digits. The value is the digits' value, negated after a `'-'`. The empty text is refused. `JavaStrings.ParseDecimalAccepts` states the converse. |
| JavaStrings.ParseDecimalAccepts | src/main/java/hudson/plugins/slave_squatter/squatters/CronSquatter.java:116-118 | Every optional sign followed by one or more ASCII digits, with a value in the range, is accepted with that value. This includes spellings Java never prints, such as `007`, `+5` and `-0`. |
| JavaStrings.NatDigits | src/main/java/hudson/plugins/slave_squatter/squatters/CronSquatter.java:116-118 | The printing inverse used by the round-trip lemmas; the source itself never prints numbers. The printed digits are non-empty, all decimal, and denote the number. |
| JavaStrings.DecimalRoundTrip | src/main/java/hudson/plugins/slave_squatter/squatters/CronSquatter.java:116-118 | Printing a number in range and parsing it back yields the same number. |
| JavaStrings.ShowDecimalShape | src/main/java/hudson/plugins/slave_squatter/squatters/CronSquatter.java:116-118 | About the printing inverse (`Integer.toString`) that the round-trip lemmas use; the source never prints. A printed number is non-empty and trimmed, and holds only `-` and digits, so it has no `:`. |
| RuleFormat.MinutesToMillis | src/main/java/hudson/plugins/slave_squatter/squatters/CronSquatter.java:118 | The `*60*1000` conversion of a minute count; its contract is carried by `RuleFormat.MinutesToMillisExact`. |
| RuleFormat.MinutesToMillisExact | src/main/java/hudson/plugins/slave_squatter/squatters/CronSquatter.java:118 | Converting minutes to milliseconds keeps the sign and loses nothing: the result is a multiple of 60000 whose quotient is the minute count. |
| RuleFormat.Ignorable | src/main/java/hudson/plugins/slave_squatter/squatters/CronSquatter.java:104-106 | The skip test: the trimmed line is empty or starts with `#`. Its consequences are stated by `RuleFormat.RuleLineAt`, `RuleFormat.RuleLinesComplete`, `RuleFormat.NoRuleLines` and `RuleFormat.ParseFormatErrorLine`. |
| RuleFormat.ParseSize | src/main/java/hudson/plugins/slave_squatter/squatters/CronSquatter.java:116 | The size token: exactly `*` gives -1, anything else is `Integer.parseInt`. Its contract is carried by `RuleFormat.ParseRuleFields`, `RuleFormat.SizeTextRoundTrip` and `Scenarios.NegativeSizeMeansAll`. |
| RuleFormat.ParseRule | src/main/java/hudson/plugins/slave_squatter/squatters/CronSquatter.java:108-121 | Every refusal carries the line's number. A line that does not split into exactly three `:`-tokens is refused with the token count found. |
| RuleFormat.ParseRuleOutcome | src/main/java/hudson/plugins/slave_squatter/squatters/CronSquatter.java:108-121 | For a three-token line, the fields are tried in Java's argument order. A bad size gives `BadSize` with the trimmed token. Otherwise a bad pattern gives `BadPattern` with the library's message. Otherwise a bad minute count gives `BadDuration`. A line whose three fields all parse, whatever their spelling, is accepted with those values. |
| RuleFormat.ParseRuleFields | src/main/java/hudson/plugins/slave_squatter/squatters/CronSquatter.java:108-118 | An accepted line has three tokens. Its size is -1 for `*` and otherwise the first token's `int` value, negative numbers included. Its pattern is what the cron library built from the trimmed middle token and the line number. Its duration is the third token's `long` value times 60000. |
| RuleFormat.SizeTextShape | src/main/java/hudson/plugins/slave_squatter/squatters/CronSquatter.java:116 | About the printing inverse of the size token that the round-trip lemmas use; the source never writes rules. A written size is a non-empty trimmed token without `:` that starts with `*`, `-` or a digit. |
| RuleFormat.SizeTextRoundTrip | src/main/java/hudson/plugins/slave_squatter/squatters/CronSquatter.java:116 | A size in the `int` range, written out, reads back as the same size. |
| RuleFormat.MinutesTextRoundTrip | src/main/java/hudson/plugins/slave_squatter/squatters/CronSquatter.java:118 | A minute count in the `long` range, written out, reads back as the same count. |
| RuleFormat.RenderedRuleTokens | src/main/java/hudson/plugins/slave_squatter/squatters/CronSquatter.java:104-112 | About the printing inverse of a rule line that the round-trip lemmas use; the source never writes rules. A written rule is already trimmed, is not ignorable, and splits into its size, pattern and minutes tokens. |
| RuleFormat.ParseRenderedRule | src/main/java/hudson/plugins/slave_squatter/squatters/CronSquatter.java:102-121 | Writing a rule out and parsing it back gives the entry it describes, for every size and minute count the Java types hold. |
| RuleFormat.RuleLines | src/main/java/hudson/plugins/slave_squatter/squatters/CronSquatter.java:102-106 | There are never more rule lines than lines. |
| RuleFormat.RuleLineAt | src/main/java/hudson/plugins/slave_squatter/squatters/CronSquatter.java:102-106 | Each rule line is a non-ignorable line of the text, trimmed, under its own line number. |
| RuleFormat.RuleLinesSound | src/main/java/hudson/plugins/slave_squatter/squatters/CronSquatter.java:102-106 | All rule lines at once are non-ignorable lines, trimmed, under their own numbers. |
| RuleFormat.RuleLinesOrdered | src/main/java/hudson/plugins/slave_squatter/squatters/CronSquatter.java:102-103 | Rule lines keep their textual order: their line numbers strictly increase. |
| RuleFormat.RuleLinesComplete | src/main/java/hudson/plugins/slave_squatter/squatters/CronSquatter.java:102-106 | No rule is lost: every non-ignorable line appears among the rule lines under its number. |
| RuleFormat.NoRuleLines | src/main/java/hudson/plugins/slave_squatter/squatters/CronSquatter.java:105-106 | A text of only blank lines and comments has no rule lines. |
| RuleFormat.ParseLines | src/main/java/hudson/plugins/slave_squatter/squatters/CronSquatter.java:102-123 | Parsing never yields more entries than lines. An error names one of the lines parsed. |
| RuleFormat.ParseLinesViaRuleLines | src/main/java/hudson/plugins/slave_squatter/squatters/CronSquatter.java:102-123 | The line loop is the same as parsing the rule lines in order: skipped lines contribute only their line number. |
| RuleFormat.FirstBad | src/main/java/hudson/plugins/slave_squatter/squatters/CronSquatter.java:108-121 | The position found is in range, and when it is short of the end, that rule line does not parse. |
| RuleFormat.FirstBadIsFirst | src/main/java/hudson/plugins/slave_squatter/squatters/CronSquatter.java:108-121 | Every rule line before the first bad one parses. |
| RuleFormat.ParseRulesOkIff | src/main/java/hudson/plugins/slave_squatter/squatters/CronSquatter.java:102-123 | All or nothing: the rule lines parse exactly when none of them fails. |
| RuleFormat.ParseRulesEntries | src/main/java/hudson/plugins/slave_squatter/squatters/CronSquatter.java:100-123 | On success there is one entry per rule line, in order, each the entry its own line parses to. |
| RuleFormat.ParseRulesFirstError | src/main/java/hudson/plugins/slave_squatter/squatters/CronSquatter.java:108-121 | On failure, the error is that of the first rule line that does not parse. |
| RuleFormat.ParseRulesErrorLine | src/main/java/hudson/plugins/slave_squatter/squatters/CronSquatter.java:103-121 | A failed parse reports the line number of its first bad rule line. |
| RuleFormat.ParseFormat | src/main/java/hudson/plugins/slave_squatter/squatters/CronSquatter.java:99-124 | `parseFormat` itself: the lines of the text, numbered from 1, through the line loop. Its contract is carried by `RuleFormat.ParseFormatSpec`, `RuleFormat.ParseFormatErrorLine` and `RuleFormat.OnlyCommentsParseEmpty`. |
| RuleFormat.ParseFormatSpec | src/main/java/hudson/plugins/slave_squatter/squatters/CronSquatter.java:99-124 | `parseFormat` succeeds exactly when every rule line parses, and then yields one entry per rule line in textual order. Otherwise it reports the first failing rule line's error and yields no entries. |
| RuleFormat.ParseFormatErrorLine | src/main/java/hudson/plugins/slave_squatter/squatters/CronSquatter.java:99-124 | The line an error names is a line of the text counted from 1, and never a blank line or a comment. |
| RuleFormat.RuleLinesErrorLine | src/main/java/hudson/plugins/slave_squatter/squatters/CronSquatter.java:102-121 | A failed parse of the rule lines names a non-ignorable line, within the lines given. |
| RuleFormat.OnlyCommentsParseEmpty | src/main/java/hudson/plugins/slave_squatter/squatters/CronSquatter.java:102-106 | A text of only blank lines and comments parses, whatever the pattern library, to no entries. |
| CronSquatter.Create | src/main/java/hudson/plugins/slave_squatter/squatters/CronSquatter.java:88-97 | Constructing a squatter succeeds exactly when its rule text parses. It then keeps the text and the parsed entries; otherwise it carries the parse error. |
| CronSquatter.TotalReserved | src/main/java/hudson/plugins/slave_squatter/squatters/CronSquatter.java:127-132 | With no entries the total is 0. Otherwise it is at least what any single entry holds, so the total is never capped below one entry. |
| CronSquatter.EarliestChange | src/main/java/hudson/plugins/slave_squatter/squatters/CronSquatter.java:135-140 | The answer is at most `Long.MAX_VALUE` and at most every entry's next change. |
| CronSquatter.Min | src/main/java/hudson/plugins/slave_squatter/squatters/CronSquatter.java:138 | `Math.min`: the result is at most both arguments and is one of them. |
| CronSquatter.SizeOfReservation | src/main/java/hudson/plugins/slave_squatter/squatters/CronSquatter.java:127-132 | The accumulating loop returns the sum of the entries' holdings, which is never negative. |
| CronSquatter.TimeOfNextChange | src/main/java/hudson/plugins/slave_squatter/squatters/CronSquatter.java:135-140 | The loop starting from `Long.MAX_VALUE` and keeping the smaller value returns the earliest of the entries' next changes. |
| CronSquatter.TotalAppend | src/main/java/hudson/plugins/slave_squatter/squatters/CronSquatter.java:127-132 | The total over two concatenated entry lists is the sum of their totals. |
| CronSquatter.EarliestAppend | src/main/java/hudson/plugins/slave_squatter/squatters/CronSquatter.java:135-140 | The earliest change over two concatenated entry lists is the smaller of their answers. |
| CronSquatter.AddEntryTotal | src/main/java/hudson/plugins/slave_squatter/squatters/CronSquatter.java:127-132 | Adding an entry raises the total by exactly what that entry holds, so overlapping entries add up. |
| CronSquatter.AddEntryEarliest | src/main/java/hudson/plugins/slave_squatter/squatters/CronSquatter.java:135-140 | Adding an entry never delays the answer. The new answer is the smaller of the old one and the entry's own. |
| CronSquatter.RemoveEntry | src/main/java/hudson/plugins/slave_squatter/squatters/CronSquatter.java:127-140 | Taking one entry out takes its holding out of the total and its next change out of the minimum. |
| CronSquatter.AggregatesIgnoreOrder | src/main/java/hudson/plugins/slave_squatter/squatters/CronSquatter.java:127-140 | Two entry lists that are permutations of each other give the same total and the same earliest change. |
| CronSquatter.StableUntilNextChange | src/main/java/hudson/plugins/slave_squatter/squatters/CronSquatter.java:127-140 | Given the cron contract, the total at every `u` in `[t, answer of timeOfNextChange)` equals the total at `t`, for every node. |
| CronSquatter.NextChangeNotBefore | src/main/java/hudson/plugins/slave_squatter/squatters/CronSquatter.java:135-140 | Given the cron contract and a `long` timestamp, the squatter's next change is never before `t`. |
| CronSquatter.EarliestAttained | src/main/java/hudson/plugins/slave_squatter/squatters/CronSquatter.java:135-140 | The answer is `Long.MAX_VALUE` or the next change of one of the entries. |
| CronSquatter.EmptySchedule | src/main/java/hudson/plugins/slave_squatter/squatters/CronSquatter.java:127-140 | A squatter without entries reserves 0 executors, and its next change is `Long.MAX_VALUE`. |
| Scenarios.MidnightHour | src/main/java/hudson/plugins/slave_squatter/squatters/CronSquatter.java:72-85 | A daily midnight rule `*` for 60 minutes on a 4-executor node holds 4 at 00:30 and 0 at 01:30. Its next change is 01:00 from 00:30, and the next midnight from 01:30. |
| Scenarios.OverlappingEntriesAdd | src/main/java/hudson/plugins/slave_squatter/squatters/CronSquatter.java:127-140 | Two overlapping entries (all executors for 1 h, plus 2 executors for 2 h) hold 6 on a 4-executor node at 00:30, then 2 at 01:30. The next change from 00:30 is 01:00. |
| Scenarios.NegativeSizeMeansAll | src/main/java/hudson/plugins/slave_squatter/squatters/CronSquatter.java:67-70 | A stored size of -3 also means every executor, and the size token `-1` reads exactly like `*`. |

## Left out

- The cron library (`hudson.scheduler.CronTab`) is not part of this model.
  - Parsing a pattern is the `PatternParser` parameter, which receives the
    trimmed token and the line number.
  - A parsed pattern is abstract, and the library's `floor`/`ceil` guarantee is
    the assumed predicate `Cron.Valid`.
- Calendars and time zones are left out. `floor`/`ceil` return epoch
  milliseconds directly instead of a `Calendar`.
- The node (`Computer`) is reduced to its executor count, a `nat`.
- Exception classes and message texts are left out: `IllegalArgumentException`,
  `NumberFormatException`, the `ANTLRException` wrapping, and
  `CronTabList_InvalidInput`. An error is modelled as the line number plus the
  reason.
- `DescriptorImpl` (display name and the `doCheckFormat` form validation) is
  left out. It is UI glue around `parseFormat`, and `parseFormat` is modelled.
- `readResolve` is left out as a separate deserialisation hook. Its one effect,
  re-deriving the entries from the text, is what `CronSquatter.Create` models.
- `JavaStrings.ParseDecimal`: accepts ASCII digits only. Java's `parseInt` and
  `parseLong` also accept non-ASCII Unicode decimal digits.
- `RuleFormat.MinutesToMillis`: computed on unbounded integers. Java's
  `Long.parseLong(...)*60*1000` wraps around in 64 bits for minute counts
  beyond about 1.5e14.
- `Entries.SizeOfReservation`: `start + duration` is computed without the
  64-bit wrap-around Java would apply near `Long.MAX_VALUE`.
- `Entries.TimeOfNextChange`: `floor + duration` is computed without the 64-bit
  wrap-around Java would apply near `Long.MAX_VALUE`.
- `CronSquatter.SizeOfReservation`: the sum is unbounded, where Java adds in
  32-bit `int`.
- `CronSquatter.TotalReserved`: the sum is unbounded, where Java adds in 32-bit
  `int`.
- `floor` and `ceil` are total functions in the model. A failure of the cron
  library's search at query time is not modelled, and `Cron.Valid` assumes
  that every pattern matches arbitrarily far in both directions.
- Thread safety and serialisation of the entry list are not modelled.
