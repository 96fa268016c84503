# kbdiag: verified model

kbdiag reads diagnostic facts from a database, judges them, and prints them for a person or as JSON.
This project models the part of it that is decided without a database, and proves properties of it:

- **synchronous_standby_names** (`Names`, `Keywords`, `NameBytes`, `SyncLexer`, `SyncNames`, `SyncRoundTrip`): the
  lexer is the exact inverse of writing tokens out, the parser accepts exactly its grammar, and what `quoteIdent`
  prints is read back. The exact exceptions are a bare list that opens with a method word, a
  count that is no 64-bit int, and a count right behind the method word.
- **repmgr.conf** (`Strings`, `RepmgrConf`): round trip of lines and files, last value wins, files compose, and
  exactly when the spellings `k=v`, `k = v` and `k v` agree.
- **Judging with hidden data** (`Facts`, `Verdict`, `Judging`, `SessionRules`, `LimitRules`): the verdict algebra,
  and for the rules on sessions, locks, transactions, freezing and sequences that seeing more never takes a
  conclusion back. `UNKNOWN` is shown to be honest: it is given exactly when what is hidden could decide
  either way. Sequences are the exception, and the exact condition is proved there too.
- **Arithmetic** (`Reals`, `SeqLeft`, `OldestXid`, `Units`): sequence headroom against counting `nextval` calls,
  the oldest transaction id modulo 2^32, and sizes and times after rounding.
- **Terminal text** (`Utf8`, `Escape`, `VacuumOptions`, `FixSql`, `Table`): escaping of arbitrary bytes, fix statements that reach
  the terminal unchanged, and columns that stay aligned whatever the width of the characters.
- **Counts and selections that must agree** (`NoRepeats`, `Picking`, `Waits`, `LocksView`): waits add up, and the text and the
  JSON of locks choose the same rows.

Loops of the program are loops here, each proved against a recursive or declarative specification; the properties
are lemmas about those specifications. NULL is an option, a finding is its id, level and subject, and a table's
output is the list of its lines. Text is a sequence of characters: code points for the two parsers, one character
per byte for the escaping and the fix statements. `quoteIdent` tests only ASCII characters, and `NameBytes.QuotedBytes`
shows that its two readings agree.

Where the code and its comments differ, the code is modelled:

- The parser of repmgr.conf takes the `=` as optional; a value that is empty or begins with `=` needs it
  (`RepmgrConf.SpellingsAgree`).
- A sequence list reads UNKNOWN although nothing hidden could change the verdict when it was not read or holds an
  unreadable sequence on a standby, or when no unreadable sequence of a primary could be
  exhausted, as when all of them cycle
  (`LimitRules.SeqUnknownDecides`, `LimitRules.UnknownThoughDecided`).
- The guard before a sequence's fix statement tests the two names run together. Behind it the statement is shown as it
  is if and only if the schema is valid UTF-8 by itself (`FixSql.SeqFixShownExactly`, `FixSql.SeqFixGuardMisses`).
  `Vacuum` tests them with a separator and is exact (`FixSql.FixGivenExactly`).

`LocksView.HeldExactly` says for any list of rows what `holds` shows; it depends on their order. The query sorts the
granted rows of a pid first (`LocksView.QueryGivesGrantedFirst`), and in that order every granted lock that should be
shown as held is (`LocksView.HeldIsGranted`).

## Model

| member | source | states |
|---|---|---|
| Names.QuoteIdent | internal/rule/names.go:32-44 | the loop with its flag computes the quoted form: a lower-case identifier that is no keyword as it is, anything else between quotes with inner quotes doubled |
| Names.QuotedExactly | internal/rule/names.go:32-44 | a name is left alone if and only if it is no keyword, starts with a to z or underscore and goes on with these, digits or dollars; any other stands between double quotes, each of its own twice and every other character as often as before |
| Names.ReadQuotedIdent | internal/rule/names.go:32-44 | whatever the name and whatever delimiter follows, the identifier printed for it reads back as exactly that name and that rest, for every keyword table |
| Names.QualifiedRoundTrip | internal/rule/names.go:46-47 | schema.relation reads back as the two names, dots and quotes inside them included |
| Names.QualifiedInjective | internal/rule/names.go:46-47 | no two (schema, relation) pairs share a qualified name |
| Names.QualifiedExactly | internal/rule/names.go:46-47 | the two names are joined by a dot alone if and only if neither needs quotes |
| Keywords.AnyIsFirstIsNot | internal/rule/names.go:11-27 | in the real keyword table ANY is a keyword and FIRST is not |
| NameBytes.QuotedBytes | internal/rule/names.go:32-44 | quoting commutes with UTF-8: quoting the code points and encoding gives the same bytes as quoting the encoded bytes, so both views of a name agree |
| SyncLexer.SyncTokens | internal/rule/repl.go:168-211 | the index loop terminates, never leaves the text, and returns the recursive lexer's tokens or its failure |
| SyncLexer.ScanQuoted | internal/rule/repl.go:181-200 | the inner loop reads a name with doubled quotes up to its closing quote, and fails exactly when there is none |
| SyncLexer.ScanWord | internal/rule/repl.go:201-207 | the inner loop takes the longest run without blank, quote or punctuation |
| SyncLexer.FirstCharacterDecides | internal/rule/repl.go:174-207 | space, tab and newline are skipped, comma and parentheses are tokens, a double quote opens a quoted one, and anything else a word up to the next of these seven characters |
| SyncLexer.LexFailsOnOddQuotes | internal/rule/repl.go:170-211 | the lexer fails if and only if the text holds an odd number of double quotes |
| SyncLexer.LexWritten | internal/rule/repl.go:170-211 | tokens written out with any blanks between them (some only where two would run together) lex back to the same tokens |
| SyncLexer.LexUnwritten | internal/rule/repl.go:170-211 | every text that lexes is its own tokens written out with some blanks: the lexer is lossless up to spacing |
| SyncLexer.LexInvertsWritten | internal/rule/repl.go:170-211 | a text lexes to a token list if and only if it is one of the ways to write that list |
| SyncNames.ParseSyncNames | internal/rule/repl.go:123-161 | the re-slicing parser equals the specified one; no index or slice leaves its range; nothing is returned on failure |
| SyncNames.ReadNames | internal/rule/repl.go:147-160 | the alternating loop accepts exactly name {, name} and returns the names at the even positions in order |
| SyncNames.ListExactly | internal/rule/repl.go:147-160 | a token list is a list of names if and only if it is tokens that are quoted or no punctuation, joined with commas |
| SyncNames.ListOfJoined | internal/rule/repl.go:147-160 | the names returned are the texts of those tokens, in order |
| SyncNames.ParseIsGrammar | internal/rule/repl.go:127-161 | a token list is accepted with a number and names if and only if one of the forms nothing, list, N (list), FIRST N (list), ANY N (list) derives it with that number and those names |
| SyncNames.DerivesOnlyFormOf | internal/rule/repl.go:136-146 | the grammar is unambiguous: at most one form derives a token list, and its first tokens decide which |
| SyncNames.BareMethodWordRejected | internal/rule/repl.go:136-146 | a bare list of several names that opens with unquoted FIRST or ANY is rejected |
| SyncNames.AnyExactly | internal/rule/repl.go:136 | the word ANY in any mix of capital and small letters is the method word, and no other word or quoted name is |
| SyncNames.FirstExactly | internal/rule/repl.go:136 | the same for FIRST, where the long s also counts as its s |
| SyncNames.SyncNames | internal/rule/repl.go:213-226 | the wording chosen by lexing a second time says any exactly when the parser took the ANY branch, first exactly otherwise, and none exactly on failure or number 0 |
| SyncNames.AtoiOfItoa | internal/rule/repl.go:139 | a count printed in decimal is read back if and only if it is a 64-bit int |
| SyncNames.AtoiExactly | internal/rule/repl.go:139 | a count is read if and only if it is decimal digits after an optional sign, and its value, each digit times the power of ten of its place, fits a signed 64-bit int |
| SyncNames.ItoaByPlaces | internal/rule/repl.go:139 | the printed count is the decimal digits of the number without a zero in front |
| SyncRoundTrip.RoundTrip | internal/rule/repl.go:127-211 | for every method word in any letter case (or none), every count, every non-empty list of names whatever their characters, every keyword table and any blanks around the pieces, the printed setting parses back to count and names with the method's form; it is rejected exactly when the count is no 64-bit int or stands right behind the method word |
| SyncRoundTrip.AnyLetterCase | internal/rule/repl.go:127-211 | with the method word spelled letter by letter in either case, the count below 2^63 and spaces, tabs or newlines around the pieces, ANY comes back as ANY and FIRST as FIRST with count and names |
| SyncRoundTrip.BareRoundTrip | internal/rule/repl.go:127-211 | a printed bare list parses back to (1, names), except exactly when it has several names and opens with first or any left unquoted, and then it is rejected |
| SyncRoundTrip.BareRoundTripWithTable | internal/rule/repl.go:127-211 | with the real keyword table the rejected lists are exactly those of several names that open with first |
| RepmgrConf.ParseRepmgrConf | internal/probe/cluster.go:216-248 | the loop over lines fills the map that the lines mean one by one, later ones over earlier ones |
| RepmgrConf.CutLine | internal/probe/cluster.go:227-232 | the line is cut at its first blank when that comes before any '=' and no '=' follows it past white space, otherwise at the first '=', and not at all without one |
| RepmgrConf.ReadValue | internal/probe/cluster.go:237-244 | a quoted value ends at its closing quote, an unquoted one at a comment sign |
| RepmgrConf.ParseConcat | internal/probe/cluster.go:216-248 | parsing a file, a newline and another file is the first's map overridden by the second's |
| RepmgrConf.ParsedKeyIsClean | internal/probe/cluster.go:218-236 | no key the parser ever returns is empty, starts with #, or holds white space or '=' |
| RepmgrConf.LineRoundTrip | internal/probe/cluster.go:218-245 | a key='value' line reads back as its pair if and only if the key is clean and the quote is not in the value |
| RepmgrConf.TextAfterQuoteIgnored | internal/probe/cluster.go:237-241 | whatever follows the closing quote on the line is not part of the value |
| RepmgrConf.OpenQuoteStays | internal/probe/cluster.go:237-241 | a quote that is not closed stays in the value |
| RepmgrConf.CommentIgnored | internal/probe/cluster.go:242-244 | a number sign ends a value that is not quoted, and the white space before it goes too |
| RepmgrConf.LineEndsIgnored | internal/probe/cluster.go:222-223 | spaces, tabs and carriage returns around a line make no difference |
| RepmgrConf.SpellingsAgree | internal/probe/cluster.go:227-244 | k=v reads the same with any spaces and tabs around the sign; k v, with any between them, agrees if and only if the value is not empty and does not begin with '=' |
| RepmgrConf.LeadingEqualsMatters | internal/probe/cluster.go:227-244 | for a value that begins with '=', dropping that sign always changes what is read, quotes and comments included |
| RepmgrConf.FileRoundTrip | internal/probe/cluster.go:216-248 | any printed list of pairs, with blank and comment lines between them, parses back to exactly the last value of every key |
| Utf8.ValidExactlyEncoded | internal/report/render.go:179 | a byte string is valid if and only if it is the RFC 3629 encoding of some scalar values |
| Utf8.EncodeOfDecode | internal/report/render.go:184 | what decodes as a rune is a scalar value, and its encoding is the bytes it was read from (no overlong form, no surrogate) |
| Utf8.DecodeOfEncode | internal/report/render.go:184 | an encoded scalar value decodes to itself and to its own length, whatever follows |
| Utf8.Examples | internal/report/render.go:184 | the encodings printed in section 7 of RFC 3629 |
| Escape.EscapeControl | internal/report/render.go:172-198 | the shortcut and the byte-index loop give the escaped text; the index moves forward at every step and stays inside the text |
| Escape.HexReads | internal/report/render.go:187-193 | the digits of an escape read, by the places of base sixteen, as the number, with at least the width asked for and no zero in front beyond it |
| Escape.EscapeOfFront | internal/report/render.go:182-197 | a byte that does not decode and a hostile rune below 0x80 become \x and two digits that read as that number, a hostile rune from 0x80 on \u and at least four that do, and any other rune stays as it is |
| Escape.EscapedIsSafe | internal/report/render.go:178-202 | for arbitrary bytes the result is valid UTF-8 without a hostile character |
| Escape.EscapedIdempotent | internal/report/render.go:178-198 | escaping twice is escaping once |
| Escape.CleanIsNoControl | internal/rule/names.go:49-58 | hasControl is false exactly for valid UTF-8 whose every rune is harmless |
| Escape.UnchangedExactlyWithoutControl | internal/rule/names.go:49-58 | escapeControl returns a text unchanged if and only if the other package's hasControl is false for it |
| VacuumOptions.ParseBool | internal/rule/names.go:60-83 | the loop over the words stops at the first that fits |
| VacuumOptions.ParseBoolExactly | internal/rule/names.go:60-83 | a boolean is read if and only if the trimmed, lower-cased text abbreviates exactly one of the eight words, and it is that word's value: the least lengths of the table are right |
| VacuumOptions.ParseBoolMeans | internal/rule/names.go:60-83 | true is a front of true or yes, on, or 1; false is a front of false or no, of, off, or 0, in any letter case |
| VacuumOptions.VacuumThreshold | internal/rule/vacuum.go:68-97 | one loop over the options leaves, for each of the three settings on its own, the last entry that parses or the server's value, and combines them in the given arithmetic |
| VacuumOptions.SaysExactly | internal/rule/vacuum.go:77-95 | an entry counts for a setting if and only if it is its name, an equals sign and a text that parses |
| VacuumOptions.ChosenExactly | internal/rule/vacuum.go:77-97 | the last entry that counts decides, and the server's value only when none does |
| VacuumOptions.LastEntryDecides | internal/rule/vacuum.go:73-95 | entries that do not parse, have no sign or are about other names change nothing, wherever they stand |
| FixSql.Vacuum | internal/rule/vacuum.go:11-59 | findings with all their next steps in order, and the verdict, for every status of both probes and both roles, every list of options and any arithmetic |
| FixSql.VacuumReport | internal/rule/vacuum.go:20-66 | nothing without the settings; else the switch that is off, autovacuum before track_counts, with the statement that turns it on, and then the tables |
| FixSql.FlagTables | internal/rule/vacuum.go:28-56 | the loop reports the tables past their threshold with autovacuum off, in order, each with its three steps |
| FixSql.TablesFoundExactly | internal/rule/vacuum.go:27-56 | a table is reported if and only if a row with its names has autovacuum off by its options and more dead tuples than its own threshold |
| FixSql.TablePlaces | internal/rule/vacuum.go:27-56 | one finding for each such row, in order |
| FixSql.StepsExactly | internal/rule/vacuum.go:38-53 | its steps: VACUUM and the qualified name, or kbdiag vacuum --json when a name has control characters, then kbdiag txn and kbdiag slots |
| FixSql.FixGivenExactly | internal/rule/vacuum.go:38-41 | a VACUUM statement is given, not a pointer to --json, if and only if schema and relation are each free of control characters |
| FixSql.FixShownVerbatim | internal/rule/vacuum.go:38-41 | a statement that is given passes the terminal's escaping byte for byte, and reading its two identifiers back gives that schema and relation |
| FixSql.VacuumFixesShown | internal/rule/vacuum.go:20-59 | every statement Vacuum gives, for whatever the probes hold, passes the terminal's escaping unchanged, and the one on a table's finding names exactly that table |
| FixSql.SeqFixGuardExactly | internal/rule/seq.go:83-91 | the guard that tests the two names run together agrees with testing each, given a schema that is valid UTF-8 by itself |
| FixSql.SeqNameShownExactly | internal/rule/seq.go:86-91 | a name that passed the guard reaches the terminal unchanged if and only if the schema is valid UTF-8 by itself |
| FixSql.SeqFixShownExactly | internal/rule/seq.go:83-117 | for every sequence, the whole statement is shown as it is if and only if the guard withheld the name or the schema is valid by itself |
| FixSql.SeqFixReads | internal/rule/seq.go:83-107 | the statement alters the sequence whose two names it reads back as, or leaves the name to be filled in exactly when the guard says so |
| FixSql.SeqClauseExactly | internal/rule/seq.go:92-117 | it changes the type exactly when the sequence stops where a type below bigint ends, and otherwise the limit it runs towards |
| FixSql.SeqFixGuardMisses | internal/rule/seq.go:83-91 | a concrete pair that shows the condition is needed: an encoding cut in two by the names passes the guard and is then escaped |
| Verdict.TakeVerdict | internal/rule/rule.go:126-142 | the loop gives FAIL if any finding fails, else WARN if any warns, else UNKNOWN if something was unseen, else OK |
| Verdict.VerdictExactly | internal/rule/rule.go:126-142 | FAIL if and only if a finding fails; WARN if and only if one warns and none fails; UNKNOWN and OK only without either, told apart by the flag |
| Verdict.Merge | internal/rule/rule.go:102-112 | the loop keeps all findings in order and judges them with unknown set exactly when an input was UNKNOWN |
| Verdict.ConsistentExactly | internal/rule/rule.go:126-142 | a result is one a rule can return if and only if verdictOf gives its verdict for its findings and some flag |
| Verdict.MergeIsMax | internal/rule/rule.go:102-112 | on results a rule can return, Merge takes the maximum under OK < UNKNOWN < WARN < FAIL |
| Verdict.MergeOfOne | internal/rule/rule.go:102-112 | merging a single result changes nothing if and only if it is one a rule can return |
| Verdict.MergeIsConsistent | internal/rule/rule.go:102-112 | every merged result is one a rule can return, so merging may be repeated |
| Verdict.MergeIsAssociative | internal/rule/rule.go:102-112 | merging in groups is merging all at once, for arbitrary results |
| Verdict.MergeIgnoresOrder | internal/rule/rule.go:102-112 | the merged verdict is the same for every order of the inputs |
| Verdict.MergeIsIdempotent | internal/rule/rule.go:102-112 | merging a result with itself keeps its verdict if and only if it is one a rule can return |
| Verdict.MergeNeverHidesUnknown | internal/rule/rule.go:102-112 | one UNKNOWN input keeps the merged verdict from OK, and its findings stay in their place |
| Judging.FinerKeeps | internal/rule/rule.go:114-142 | any rule that judges row by row keeps OK, keeps WARN at WARN or FAIL, keeps FAIL and loses no finding when each row is seen at least as well |
| Judging.ShownKeeps | internal/rule/rule.go:114-142 | the same over whole probes: hidden rows shown, a skipped or failed probe read |
| Judging.FoundPlaces | internal/rule/rule.go:64-100 | a rule that judges row by row gives one finding for each row that has one, in the order of the rows, and no other |
| Judging.NotRead | internal/rule/rule.go:114-124 | a probe that does not apply is OK, one that was skipped or failed is UNKNOWN, and neither has findings |
| Judging.MergeKeeps | internal/rule/rule.go:102-112 | merging two results keeps what its inputs keep |
| Judging.RunIsConsistent | internal/rule/rule.go:114-142 | every such rule returns verdictOf its findings and some flag |
| Judging.OKIsInFull | internal/rule/rule.go:114-142 | a probe called OK was read and had nothing hidden |
| Judging.UndecidedCompletions | internal/rule/rule.go:114-142 | for an UNKNOWN probe there is a way to fill in what is hidden that is OK and one that is WARN or FAIL |
| SessionRules.Sessions | internal/rule/rule.go:64-100 | the loop reports exactly the sessions idle in a transaction past the limit, and is unsure exactly about masked and untracked ones |
| SessionRules.SessionsReport | internal/rule/rule.go:64-100 | in the fields of the rows: a warning for exactly the sessions not masked, in either idle-in-transaction state, with an age of at least the limit, in order; the verdict from these and the masked and untracked ones |
| SessionRules.SessionsKeep | internal/rule/rule.go:64-100 | showing masked or untracked sessions, or an unread probe, takes back no conclusion and no finding |
| SessionRules.SessionsUnknownExactly | internal/rule/rule.go:64-100 | UNKNOWN if and only if some full view of the same sessions is OK and another is not |
| SessionRules.Locks | internal/rule/lock.go:11-33 | the loop reports exactly the waiters past the limit, and is unsure exactly about waiters without a wait |
| SessionRules.LocksReport | internal/rule/lock.go:11-33 | in the fields of the rows: a warning for exactly the ungranted rows with a pid and a wait of at least the limit, in order; the verdict from these and the waits that are missing |
| SessionRules.LocksKeep | internal/rule/lock.go:11-33 | showing a missing wait, or an unread probe, takes back no conclusion and no finding |
| SessionRules.LocksUnknownExactly | internal/rule/lock.go:11-33 | UNKNOWN if and only if some full view is OK and another is not |
| SessionRules.LongTxn | internal/rule/txn.go:19-49 | the loop over sessions, by its findings and what it could not see |
| SessionRules.LongReport | internal/rule/txn.go:19-49 | a warning for exactly the sessions neither masked nor untracked whose transaction is at least as old as the limit, in order, and the verdict |
| SessionRules.PreparedTxn | internal/rule/txn.go:51-79 | the loop over prepared transactions |
| SessionRules.PreparedReport | internal/rule/txn.go:51-79 | a warning for exactly the prepared transactions at least as old as the limit, in order, and the verdict |
| SessionRules.Txn | internal/rule/txn.go:11-17 | the two merged |
| SessionRules.TxnReport | internal/rule/txn.go:11-17 | the findings of the sessions and then those of the prepared transactions; WARN if either warns, else UNKNOWN if either is |
| SessionRules.TxnKeep | internal/rule/txn.go:11-79 | showing more of either probe takes back no conclusion and no finding of the merged rule |
| SessionRules.TxnUnknownExactly | internal/rule/txn.go:11-79 | UNKNOWN if and only if some full view of both probes is OK and another is not |
| LimitRules.AgeFinding | internal/rule/freeze.go:48-73 | the level is that of the worst limit passed by either age; unknown exactly when no limits are there and no stop limit is passed |
| LimitRules.Freeze | internal/rule/freeze.go:11-39 | the loop over databases with the limits probe read or not |
| LimitRules.FreezeReport | internal/rule/freeze.go:11-73 | in the fields of the rows: a finding for exactly the databases at 2146483647 xids or 2147483547 multixacts, which fail, or at a limit that was read, which warn, in order; the verdict from these and missing limits |
| LimitRules.FreezeKeep | internal/rule/freeze.go:11-73 | learning the limits, or the databases, takes back no conclusion and no finding |
| LimitRules.FreezeUnknownExactly | internal/rule/freeze.go:11-73 | UNKNOWN if and only if some full view of databases and limits is OK and another is not |
| LimitRules.Redacted | internal/facts/seq.go:36-48 | the number of unreadable sequences, positive exactly when the rule had something it could not see |
| LimitRules.Seq | internal/rule/seq.go:41-81 | the loop over sequences, on a primary and on a standby |
| LimitRules.SeqReport | internal/rule/seq.go:41-81 | in the fields of the rows: on a primary a failure for exactly the called sequences that do not cycle and whose next value is past the limit, in order; the verdict from these and the unreadable ones |
| LimitRules.ExhaustedExactly | internal/rule/seq.go:48-81 | on a primary a readable, called, non-cycling sequence is reported exhausted if and only if its next nextval would fail |
| LimitRules.SeqKeep | internal/rule/seq.go:41-81 | showing unreadable sequences with any value, or an unread list, takes back no conclusion and no finding as long as no reported sequence turns out to have values left |
| LimitRules.SeqKeepExactly | internal/rule/seq.go:41-81 | whatever is shown of a list keeps its conclusions, if and only if no unreadable sequence on a primary was judged by a value in its row |
| LimitRules.ValueOfUnreadableIsTrusted | internal/rule/seq.go:48-81 | an unreadable row at its limit is judged FAIL, and shown never called it is OK, for every sequence that does not cycle: the failing half of SeqKeepExactly is inhabited (the server sends NULL there) |
| LimitRules.SeqUndecidedExactly | internal/rule/seq.go:41-81 | for every list, some full view is OK and another is FAIL if and only if it is a primary with the list unread, or with an unreadable sequence that could be exhausted and no readable one that is |
| LimitRules.SeqUnknownExactly | internal/rule/seq.go:48-81 | the rule says UNKNOWN if and only if the list was skipped or failed, or holds an unreadable sequence and nothing was found |
| LimitRules.SeqUnknownDecides | internal/rule/seq.go:48-81 | of an UNKNOWN sequence list, what is hidden can change the verdict if and only if it is a primary with the list unread or an unreadable sequence that could be exhausted |
| LimitRules.UnknownThoughDecided | internal/rule/seq.go:48-81 | lists that are UNKNOWN although every full view of them is OK: an unreadable sequence on a standby, and one that cycles on a primary |
| SeqLeft.SeqLeft | internal/rule/seq.go:10-39 | for every 64-bit last value, limits and non-zero increment either way: left is the number of nextval calls that succeed, used the fraction of the range |
| SeqLeft.StepsAreQuotient | internal/rule/seq.go:14-39 | counting calls one by one until one fails equals the clamped quotient the code computes |
| SeqLeft.StepsExactly | internal/rule/seq.go:14-39 | at least n values are left if and only if last value plus n increments is inside the limit |
| SeqLeft.OneStep | internal/rule/seq.go:14-39 | a successful nextval lowers left by exactly one and never lowers used |
| SeqLeft.WholeRun | internal/rule/seq.go:14-39 | after n calls left is n less; exactly left calls succeed and the next fails |
| SeqLeft.UsedIsFraction | internal/rule/seq.go:14-39 | used stays in [0, 1], and is 1 exactly when no room is left or the range is empty |
| SeqLeft.UsedExactly | internal/rule/seq.go:32-38 | used times the range from start to limit is the distance from the start, kept inside the range |
| OldestXid.Oldest | internal/report/txn.go:84-95 | the scan loop and the labels loop return the scan's id and its holders in list order |
| OldestXid.OlderExactly | internal/report/txn.go:27-30 | without modulus: older means smaller by at most 2^31, or larger by at least 2^31 |
| OldestXid.OlderIsStrictTotalOrder | internal/report/txn.go:27-30 | inside a window of 2^31 ids modulo 2^32 the comparison is irreflexive, total and transitive |
| OldestXid.OlderBothWays | internal/report/txn.go:27-30 | it holds both ways exactly at distance 2^31, and neither way exactly for equal ids |
| OldestXid.ScanIsFirst | internal/report/txn.go:84-95 | in a window the scan ends on the id that comes first in it |
| OldestXid.ScanIgnoresOrder | internal/report/txn.go:84-95 | in a window every order of the list gives the same id |
| OldestXid.OrderIndependentExactlyInWindow | internal/report/txn.go:84-95 | the scan gives one id for all orders of the list if and only if the ids lie in some window of 2^31 |
| OldestXid.LabelsAreHolders | internal/report/txn.go:84-95 | a label is listed if and only if that holder holds the id found |
| OldestXid.LabelPlaces | internal/report/txn.go:84-95 | one label for each holder, in the order of the list |
| OldestXid.OldestIsHeld | internal/report/txn.go:84-95 | at least one holder is labelled |
| Units.Bytes | internal/units/units.go:10-20 | the dividing loop ends on the least unit whose rounded number is below 10240 (or the last), and prints that number |
| Units.UnitIsUnique | internal/units/units.go:10-20 | there is only one such unit |
| Units.BytesIsPgSizePretty | internal/units/units.go:10-20 | for every whole size the unit and the number are those of pg_size_pretty's shifting integer arithmetic |
| Units.HalvesIsFloor | internal/units/units.go:10-20 | the shifted amount is the floor of the size over half a unit, so the printed number is floor((floor(b / (512 * 1024^(i-1))) + 1) / 2) |
| Units.MiddleUnitsPrintTenToTenThousand | internal/units/units.go:10-20 | above bytes the number is at least 10, and below the last unit at most 10239 |
| Units.OffByHalfAUnit | internal/units/units.go:10-20 | the printed quantity is off by at most half a unit |
| Units.PrintedAmountMonotone | internal/units/units.go:10-20 | a larger size never prints as a smaller quantity, unit switches included |
| Units.RoundsHalfUpExactly | internal/units/units.go:10-20 | in every unit the number is rounded half up, as pg_size_pretty does, if and only if the size is not negative or not halfway |
| Units.NegativeSizesMirror | internal/units/units.go:10-20 | a negative size prints as the positive one with a sign, in the same unit |
| Units.Duration | internal/units/units.go:22-43 | the early-return scan over the parts gives the two-unit text of the rounded, clamped seconds |
| Units.DurationMeans | internal/units/units.go:22-43 | the text reads as the seconds cut down to its second unit, leads with at least one of its first, and its second number stays below one of the first |
| Units.DurationNear | internal/units/units.go:22-43 | the text reads as at most half a second more than the time given and as less than it by less than one of its second unit; a negative time reads as none |
| Units.DurationMonotone | internal/units/units.go:22-43 | the text of a longer time never reads as a shorter one, for all inputs |
| Units.ExecTime | internal/report/format.go:36-50 | the chain of branches over rounded values |
| Units.ExecTimeInRange | internal/report/format.go:36-50 | hundredths of ms up to 9.99, whole ms in [10, 999], seconds in [1.00, 59.99]; never 1000 ms or 60 s; past that the duration's text of at least 60 s |
| Units.ExecTimeNear | internal/report/format.go:36-50 | what is printed is near the time: half a hundredth of a millisecond, half a millisecond and half a hundredth, half a hundredth of a second, or within the second unit of the duration |
| Units.ExecTimeMonotone | internal/report/format.go:36-50 | the value read back is monotone across all three switches, into the duration text included |
| Table.DisplayWidth | internal/report/table.go:72-85 | the loop adds two columns for a wide character and one for any other |
| Table.FitWidth | internal/report/table.go:54-70 | a text that fits is returned as it is; otherwise its longest prefix of at most w - 3 columns and the dots |
| Table.FitWidthFills | internal/report/table.go:54-70 | a cut text is w - 1 or w columns wide for w of at least 3; below that it is the dots alone |
| Table.FitWidthBound | internal/report/table.go:54-70 | the result stays within w columns if and only if the text fits or w is at least 3 |
| Table.ColumnWidths | internal/report/table.go:20-29 | the array holds for each column the widest cell of all rows, short rows counting nothing, and has a place for the longest row |
| Table.ColumnWidthExactly | internal/report/table.go:20-29 | a column is as wide as its widest cell and no wider |
| Table.PadCell | internal/report/table.go:30-42 | a cell that is not the last is followed by at least two spaces, so the count handed to strings.Repeat is never negative |
| Table.WriteRow | internal/report/table.go:30-42 | the builder loop gives the row's cells, padded but for the last, without trailing spaces |
| Table.WriteTable | internal/report/table.go:11-44 | one line per row, header first, each as specified, for ragged rows too |
| Table.LineInFull | internal/report/table.go:30-42 | a line is the indent and the cells as they are, after each but the last the spaces to its column's width and two more, less the spaces at the end |
| Table.CellsAligned | internal/report/table.go:11-44 | what cell i of any row shows stands after exactly indent + sum over earlier columns of (width + 2) display columns in the line as written, however wide the characters, and no line ends in a space |
| Waits.CountGroup | internal/report/waits.go:30-64 | what the switch adds to the five counters for one group, and the row it shows |
| Waits.CountedExactly | internal/report/waits.go:30-64 | in the group's fields: which sessions are hidden, idle, untracked, background and busy, and what is shown |
| Waits.CountWaits | internal/report/waits.go:28-64 | the loop over the groups sums them |
| Waits.CountersAddUp | internal/report/waits.go:28-64 | each counter adds up on its own, and groups are shown in their order |
| Waits.WithoutPlaces | internal/report/waits.go:50-58 | the pids of a group shown without its background processes are the others, in order |
| Waits.WaitsConserved | internal/report/waits.go:28-64 | whatever the groups, busy + idle + background + hidden + untracked is the number of sessions, and the sessions column of the shown rows sums to busy |
| Waits.WaitsSound | internal/report/waits.go:28-64 | given masked and background sessions among a group's sessions and apart, no count is negative, every shown row has sessions and their pids, and one without a wait event lists no background pid |
| Waits.Redacted | internal/facts/wait.go:36-58 | the masked count equals the text's hidden one; the untracked count exceeds the text's by exactly the untracked sessions asleep |
| Waits.NobodyAsleep | internal/facts/wait.go:36-58 | the two counts agree if and only if no untracked group with an Activity wait has a session that is not masked, so always when untracked sessions report no wait event |
| LocksView.Blockers | internal/facts/lock.go:31-42 | the loop is a dedup of BlockedBy |
| LocksView.DedupIsOrderedSet | internal/facts/lock.go:31-42 | every blocker once, and all of them |
| LocksView.DedupKeepsOrder | internal/facts/lock.go:31-42 | the order is that of first appearance: the dedup of a prefix is a prefix of the dedup |
| LocksView.ContestedObjects | internal/scenario/lock.go:77-85 | the loop collects (blocker, object) exactly when some ungranted row on that object names that blocker |
| LocksView.ScenarioLocks | internal/scenario/lock.go:67-95 | the rows shown, in order: every ungranted one, and the granted ones on an object their owner blocks |
| LocksView.ShownPlaces | internal/scenario/lock.go:67-95 | in the fields of the rows and in order: every ungranted row, and exactly the granted ones some ungranted row waits behind: its owner among the blockers (0 without a pid), the same kind of lock and the same relation, NULL counting as an empty name |
| LocksView.CountRow | internal/report/locks.go:80-93 | the inner loop adds one per distinct blocker of a waiting row and its object to each one's wanted objects |
| LocksView.CountBlockers | internal/report/locks.go:80-93 | the maps hold for each blocker the number of waiting rows it blocks and the set of objects they want |
| LocksView.BlockedExactly | internal/report/locks.go:80-93 | a blocker's count is the number of waiting rows that name it |
| LocksView.ListingIsUnique | internal/report/locks.go:94-103 | at most one list has each blocker once, most blocked first and then by pid, whatever order the map iterates in |
| LocksView.ListBlockers | internal/report/locks.go:94-103 | there is such a list, built from the map's keys taken in any order |
| LocksView.ListedBlocksAddUp | internal/report/locks.go:80-107 | the blocks column adds up to the number of distinct (waiting row, blocker) pairs |
| LocksView.Holds | internal/report/locks.go:110-141 | the loop with its shared seen set gives the held texts in row order, else the queued ones, else nothing |
| LocksView.TextPlaces | internal/report/locks.go:110-141 | held and queued texts stand in the order of their rows |
| LocksView.TextsDoNotRepeat | internal/report/locks.go:110-141 | no text is shown twice, nor both as held and as queued |
| LocksView.HeldExactly | internal/report/locks.go:110-141 | for every list of rows, a text is held if and only if a granted row on a wanted object has it and no queued one had it before |
| LocksView.HeldInTheWay | internal/report/locks.go:80-141 | in the fields of the rows: a text is held if and only if a granted row of that owner has it, a waiter with a pid waits behind that row, and no queued such row had it before |
| LocksView.QueryGivesGrantedFirst | internal/probe/lock.go:39 | sorting by pid, NULLs last, and then granted first puts no queued row before a granted one of the same owner |
| LocksView.HeldIsGranted | internal/report/locks.go:110-141 | in the order the query gives, the held texts are exactly those of granted rows on a wanted object |
| LocksView.QueuedHidesGranted | internal/report/locks.go:110-141 | for every list, a granted row's text is missing from the held ones if and only if the first row with it is queued; the query's order rules that out |
| LocksView.WriteBlockers | internal/report/locks.go:80-141 | the whole table from the rows alone: one line for each pid that blocks, its count, what it holds on the objects wanted, in order, the counts adding up to the distinct (waiting row, blocker) pairs |
| LocksView.JsonIsTextAndUnlisted | internal/scenario/lock.go:67-95 | for every list of locks, a granted row is in the JSON selection if and only if the text's filter lets it pass for a listed blocker or a waiter without a pid contests it |
| LocksView.TextAndJsonAgree | internal/scenario/lock.go:67-95 | when every ungranted row carries a pid the two selections are the same |
| LocksView.JsonLockIsNamed | internal/report/locks.go:80-141 | then every granted lock of the JSON list, in the query's order, is also named in the text at a blocker it lists |

## Left out

- SQL, the connection, reading files, the JSON encoder and the command line: I/O and foreign libraries.
- Prose: symptoms, notes, evidence and headings. `LocksView.Holds` takes the text of a lock as a parameter.
- Unicode tables: which characters are hostile and which are wide are parameters. White space and the case folding of the method words are exact.
- Turning invalid UTF-8 into U+FFFD before the two parsers: they work on code points.
- VacuumOptions.VacuumThreshold: the float4 operations and the reading of numbers are parameters; everything holds for any of them.
- Float64 rounding: the used fraction of a sequence, sizes and times are exact reals. NaN, infinities and the sign of a zero do not appear, nor does the 64-bit range of a duration.
- Waits.WaitsSound: assumes that a group's masked and background sessions are apart and that its pids are distinct; conservation itself needs neither.
- OldestXid.Oldest: building the holder list from sessions, slots and prepared transactions, and the note about what is missing from it.
- LocksView.Holds: joining the texts with commas and the words around them.
- The order and the limit of the waiting section of locks and of the shown waits.
- Table.WriteTable: errors of the writer.
- The rules on status, replication, clusters and space: they read some NULLs as a definite answer by design, so seeing more may change it.
- Fix statements of txn.prepared and table: they use other guards, and nothing about them is proved.
- LocksView.ListBlockers: sort.Slice itself; the list is built by insertion.
- shellWord, freezeNext and syncShort: they word the commands and details of findings, which are prose here.
- Layouts of single commands and exit codes: each is a fixed list or mapping of its own, and no other function relies on it.
