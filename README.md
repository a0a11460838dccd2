# Oracle.py helpers, modelled in Dafny

`Oracle.py` is a library of helpers for scripts that administer Oracle databases. This project
models its core helpers and proves properties about them:

* **The facility catalog.** `LoadFacilities` reads `$ORACLE_HOME/lib/facility.lis`, one
  `facility:component:oldname:description` record per line, into a dictionary keyed by
  facility code (modules `Facilities` and `Text`).
* **The error scan.** `ErrorCheck` picks the facilities to look for from the catalog and a
  component list. It then searches every line of a tool's output for `FAC-dddd` and returns
  `(rc, ErrorStack)` (module `ErrorScan`).
* **The message lookup.** `LookupError` finds the message file of a facility and returns the
  header line for an error code and the `//` lines below it. When the first pass finds
  nothing, it retries with the code's leading zeros removed (module `Messages`).
* **SQL\*Plus output.** `ParseSqlout` numbers the output lines that start with a record key
  and cuts each into columns (module `SqlOutput`).
* **The oratab.** `LoadOratab` reads the `sid:home[:flag]` records of an oratab file.
  `GetAsmHome` returns the home of the last `+ASM` instance in sorted order (modules `Oratab`
  and `Sorting`).
* **The password file.** `GetPassword` returns the password of the first
  `name:user:password` record that matches a database and a user (module `Passwords`).
* **Connect strings.** `ParseConnectString` completes a `user/password@tns` connect string.
  The user name and password prompts are given as parameters (module `ConnectStrings`).
* **Two string helpers.** `FormatNumber` puts thousands separators into a number written as a
  string, and `ChunkString` cuts a text into fixed-size pieces (module `Formatting`).

Each operation that runs a loop in the source is a `method` with that loop and its
invariants. It is proved equal to a specification function, for example
`ensures r == Formatted(s, tSep, dSep)`. The properties the source promises are lemmas about
those functions.

Python's string operations are modelled explicitly in `Text`: `split`, `strip`, `find`,
`rfind`, `count`, `readlines`, `lower` and `upper`, and the ordering `sorted` uses. A failure
that ends the program (`exit(1)` or an uncaught exception) is an `Err` of the `Failure` type
in `Failures`.

The environment and the file system are parameters:

* `home: Option<string>` is `ORACLE_HOME`.
* `files: map<string, string>` maps each readable path to the text `read()` returns for it in
  text mode, where `\r\n` and a lone `\r` have already become `\n`.

## Model

| member | source | states |
|---|---|---|
| Facilities.LoadFacilities | Oracle.py:1584-1610 | An unreadable catalog file fails with `CatalogUnreadable` (the source's `exit(1)`). Otherwise the result is the catalog that the file's lines, split at `\n`, describe. |
| Facilities.LoadedKeys | Oracle.py:1596-1609 | A facility is a key of the catalog exactly when some line files a record under it. |
| Facilities.LoadedLastWrite | Oracle.py:1609 | The record stored under a key is the one from the last line that files that key. |
| Facilities.LoadedIgnoresSkipped | Oracle.py:1597-1603 | A skipped line changes nothing, wherever it stands in the file. |
| Facilities.LoadedSize | Oracle.py:1596-1609 | When no two lines file the same key, the catalog has exactly one entry per filing line. |
| Facilities.CutCommentOf | Oracle.py:1598-1599 | Cutting at the first `#` removes exactly the comment. A line without `#` is unchanged. |
| Facilities.RecordNotBlank | Oracle.py:1597 | A record line passes the blank-line test, with or without a trailing comment. |
| Facilities.RecordLineFields | Oracle.py:1600-1601 | A record line holds three colons and splits into exactly its four fields. |
| Facilities.RecordParse | Oracle.py:1600-1609 | A record line with an empty first field is skipped. Otherwise it yields the stripped key and stripped fields. |
| Facilities.ParseRecordLine | Oracle.py:1596-1609 | Round trip: writing a key and record as a catalog line, with or without a trailing comment, and parsing it gives them back. |
| Facilities.CommentedLine | Oracle.py:1598-1599 | A comment after a record changes nothing. |
| Facilities.KeyedLine | Oracle.py:1602-1609 | A line with a non-empty first field is filed under that field stripped. |
| Facilities.BlankKeyLine | Oracle.py:1603-1609 | The emptiness test looks at the unstripped first field, so a first field of blanks files its record under the empty key. |
| Facilities.EmptyKeyLine | Oracle.py:1603 | A line whose first field is empty is skipped. |
| Facilities.ExtraFieldLine | Oracle.py:1600 | A line with a fourth colon before its comment is skipped. |
| ErrorScan.Match | Oracle.py:1449-1451 | No match exactly when the facility, a hyphen and four digits occur nowhere in the line. Otherwise the match is the leftmost such occurrence, five characters longer than the facility. |
| ErrorScan.MatchFourDigits | Oracle.py:1449 | A code with more than four digits is recorded with only its first four: `ORA-00001` as `ORA-0000`. |
| ErrorScan.ShortCodeNotAt | Oracle.py:1449 | A facility and a hyphen followed by fewer than four digits, and then by a non-digit or the end of the line, is no code at that position. |
| ErrorScan.ShortCodeLine | Oracle.py:1449-1451 | A line whose only code has a single digit matches nothing: `x ORA-1 y` gives no finding. |
| ErrorScan.MatchExamples | Oracle.py:1449 | `ORA-00001` yields `ORA-0000`, and `ORA-1` yields nothing. |
| ErrorScan.ErrorCheck | Oracle.py:1403-1455 | The result is `ErrorCheckSpec`. With no Oracle home it is `(1, [])`. An unreadable catalog fails. An empty component list raises `IndexError` once there is a key to look at. Otherwise it is the scan of the output for the candidate list. |
| ErrorScan.SelectCandidates | Oracle.py:1418-1425 | The first loop builds exactly the candidate list over the sorted keys. With keys but no components it fails with `IndexError`. |
| ErrorScan.SelectForKey | Oracle.py:1419-1425 | For one key: its upper-cased name once per list entry when all components are asked for, otherwise once per entry equal to its component. |
| ErrorScan.ScanOutput | Oracle.py:1445-1455 | The scan yields the findings of every line in line order. `rc` is 1 exactly when there is a finding. |
| ErrorScan.ScanLine | Oracle.py:1446-1453 | One line yields one finding per candidate it contains, in candidate order. |
| ErrorScan.ErrorCheckRc | Oracle.py:1445-1455 | Once the catalog is read, `rc` is 0 or 1. It is 0 exactly when no output line holds a candidate code, and the stack is the scan of the output. |
| ErrorScan.ErrorCheckNoHome | Oracle.py:1408-1414 | Without `ORACLE_HOME` the result is `(1, [])`, whatever the output. |
| ErrorScan.ScanLinesEmpty | Oracle.py:1445-1453 | The stack is empty exactly when no line holds a code of any candidate. |
| ErrorScan.ScanLinesOrigin | Oracle.py:1449-1453 | Every finding pairs one of the output lines with the text matched in it for some candidate. |
| ErrorScan.ScanLinesComplete | Oracle.py:1445-1453 | Conversely, every output line and candidate whose code occurs in it give a finding of that line and its match in the stack. |
| ErrorScan.ScanLinesAppend | Oracle.py:1445 | Findings follow the order of the lines: scanning `a + b` is scanning `a`, then `b`. |
| ErrorScan.ScanLinesSize | Oracle.py:1445-1453 | There are at most (lines × candidates) findings. |
| ErrorScan.LineFindingsSize | Oracle.py:1446-1453 | One line yields at most one finding per candidate. |
| ErrorScan.LineFindingsEmpty | Oracle.py:1446-1453 | A line yields nothing exactly when it holds no candidate's code. |
| ErrorScan.LineFindingsOrigin | Oracle.py:1449-1453 | Each finding of a line records that line and a match of some candidate in it. |
| ErrorScan.LineFindingsComplete | Oracle.py:1446-1453 | Conversely, every candidate whose code occurs in the line gives a finding of that line and its match. |
| ErrorScan.CandidatesMembers | Oracle.py:1418-1425 | A code is a candidate exactly when it is an upper-cased key whose component is asked for, or any upper-cased key when all components are. |
| ErrorScan.CandidatesAllCount | Oracle.py:1419-1421 | With `ALL_COMPONENTS` first, every key is listed once per entry of the component list. |
| ErrorScan.CandidatesAppend | Oracle.py:1418 | Candidates follow the order of the keys. |
| Messages.LookupError | Oracle.py:1469-1541 | The result is `LookupSpec`: the home, catalog, code, facility and message-file failures in the source's order, then the two passes over the message file. |
| Messages.ExtractBlock | Oracle.py:1501-1517 | The pass with the `HeaderFound` flag yields the first header line and its `//` continuation, stopping at the first line that does not continue it. |
| Messages.ReadBlockLine | Oracle.py:1504-1517 | One line: before the header, whether it is the header. After it, whether it continues the message or ends it. |
| Messages.MalformedExactly | Oracle.py:1481-1485 | Once the catalog is read, the code is rejected as malformed exactly when it holds other than one hyphen. |
| Messages.SearchFirstPass | Oracle.py:1501-1517 | A code that heads a line is found on the first pass: the first such line and the `//` lines below it. |
| Messages.SearchSecondPass | Oracle.py:1519-1536 | A digit code that heads no line is found on the retry, at the first line headed by the code without its leading zeros. |
| Messages.SearchNothing | Oracle.py:1519-1541 | The message is empty exactly when neither the code nor `str(int(code))` heads a line. The lookup fails exactly when the code heads no line and `int` rejects it. |
| Messages.HeaderMatchIff | Oracle.py:1512-1513 | `HeaderMatch` is the anchored pattern `[0]*code,`: some run of zeros, then the code, then a comma, at the start of the line. |
| Messages.HeaderPadded | Oracle.py:1512 | A header written with extra leading zeros still matches the code. |
| Messages.HeaderUnpadded | Oracle.py:1530 | A header that matches a zero-padded code also matches the code without the padding. |
| Messages.PaddedHeaderExample | Oracle.py:1512 | The code `0001` finds the header `00001,...`. |
| Messages.ContinuationFacts | Oracle.py:1505-1510 | The continuation is the stripped run of `//` lines at the front, ending at the first line that does not start with `//`. |
| Messages.BlockEmpty | Oracle.py:1501-1517 | A pass finds nothing exactly when no line is a header for the code. |
| Messages.BlockFirstHeader | Oracle.py:1501-1517 | A pass yields the first header line, stripped, followed by its continuation. |
| Messages.HeaderAtEnd | Oracle.py:1501-1517 | A header on the last line gives a message of that one line. |
| Messages.DropZeros | Oracle.py:1521 | The result is a suffix of the code, what it drops is all zeros, and it does not start with `0`. |
| Messages.ZerosValue | Oracle.py:1521 | Leading zeros do not change the value of a digit string. |
| Messages.IntLiteralDigits | Oracle.py:1521 | `int` accepts a non-empty digit code, and `str` writes it back without its leading zeros, or as `0`. |
| Messages.RetryCode | Oracle.py:1520-1521 | For a digit code, the retry code is canonical digits with the same value, and the original is that code with zeros in front. |
| Messages.RetryWidens | Oracle.py:1521-1530 | Every header found for a digit code is also found by the retry code. |
| Messages.UnpaddedHeaderOnRetry | Oracle.py:1519-1534 | An unpadded header such as `1,...` is missed by `0001` and found by the retry, which asks for `1`. |
| Messages.DropZerosPrefix | Oracle.py:1521 | `DropZeros` removes exactly the leading zeros in front of a text that does not start with `0`. |
| SqlOutput.ParseSqlout | Oracle.py:570-586 | The result numbers the lines that start with the key from 1 and holds each one's columns after the first. The `exit()` inside the `try` does not stop the loop. |
| SqlOutput.MatchingOne | Oracle.py:577 | A line is kept exactly when it starts with the key. |
| SqlOutput.MatchingAppend | Oracle.py:576-577 | Kept lines keep their order: matching `a + b` is matching `a`, then `b`. |
| SqlOutput.MatchingMembers | Oracle.py:575-577 | Every kept line is an output line starting with the key, and every such line is kept. |
| SqlOutput.RowsFacts | Oracle.py:578-581 | The keys are exactly 1 to the number of matching lines. Record `i + 1` holds the columns of the `i`-th matching line after its first. |
| SqlOutput.RecordRestoresLine | Oracle.py:579 | Putting the first column back in front of a record and joining with the separator gives the line again. |
| SqlOutput.RowsEmptySeparator | Oracle.py:578-584 | An empty separator makes every `split` raise inside the `try`, so nothing is recorded. |
| SqlOutput.RowOfRecord | Oracle.py:576-581 | A single line `key~c1~...~cn` gives the one record `[c1, ..., cn]`, for a separator not in the key or columns. |
| Oratab.LoadOratab | Oracle.py:1003-1016 | The loop builds exactly the dictionary that the file's `readlines()` describe. |
| Oratab.OratabKeys | Oracle.py:1003-1016 | A SID is in the dictionary exactly when some line names it. |
| Oratab.OratabLastWrite | Oracle.py:1016 | The home stored for a SID is that of the last line naming it. |
| Oratab.OratabRecordLine | Oracle.py:1004-1016 | Round trip: a record `sid:home:flag`, with blanks around it and a comment after it, gives back its SID and home. |
| Oratab.NoColonSkipped | Oracle.py:1006 | A line with no colon outside its comment adds nothing. |
| Oratab.GetAsmHome | Oracle.py:1051-1058 | The result is the home of the last SID starting with `+ASM` in sorted order, or `""`. |
| Oratab.LastAsmAt | Oracle.py:1055-1057 | The result is the home of the last `+ASM` SID in the sequence. |
| Oratab.LastAsmNone | Oracle.py:1052-1058 | Without a `+ASM` SID the result is `""`. |
| Oratab.AsmHome | Oracle.py:1051-1058 | `""` when no SID starts with `+ASM`. Otherwise the home of the greatest such SID in string order. |
| Oratab.GreatestLast | Oracle.py:1055-1057 | Over the sorted SIDs, the greatest `+ASM` SID is the last one seen. |
| Sorting.SortedSeq | Oracle.py:1055 | `sorted(keys)`: strictly ascending in Python string order, with exactly the elements of the set. |
| Sorting.SortStrings | Oracle.py:1055 | The sort (repeatedly taking the least remaining key) yields `SortedSeq`. |
| Sorting.SortedUnique | Oracle.py:1055 | Two ascending sequences with the same elements are equal, so the sorted order is unique. |
| Passwords.GetPassword | Oracle.py:1659-1685 | An unreadable file fails. Otherwise the result is the password of the first matching record, decoded when asked (left as stored when decoding fails), or `""` when no record matches. |
| Passwords.FirstOfferAt | Oracle.py:1668-1684 | The first line that offers a password decides the result. |
| Passwords.FirstOfferNone | Oracle.py:1668-1685 | With no offering line there is no password. |
| Passwords.FirstOfferFound | Oracle.py:1668-1684 | A found password comes from a line that offers it, with no offering line before it. |
| Passwords.OfferNonEmpty | Oracle.py:1673 | A password that is offered is never empty. |
| Passwords.BlankMeansAbsent | Oracle.py:1668-1685 | Without decoding, `""` is returned exactly when no line offers a password. |
| Passwords.NotAbsent | Oracle.py:1668-1684 | One offering line is enough for a non-empty password. |
| Passwords.SkippedHoldNoColon | Oracle.py:1669-1671 | A line skipped as blank or as a comment holds no colon, so the skip tests never hide a record. |
| Passwords.NotSkipped | Oracle.py:1669-1670 | A line that holds a colon passes both skip tests. |
| Passwords.RecordOffers | Oracle.py:1671-1673 | A record `name:user:password` offers its password for that name and for any spelling of the user that agrees up to case. |
| Passwords.OfferedRecord | Oracle.py:1671-1673 | Conversely, an offering line is such a record, for the asked name and a user equal up to case. |
| Passwords.CaseInsensitive | Oracle.py:1673 | The user is compared without regard to case. |
| ConnectStrings.ParseConnectString | Oracle.py:432-474 | The only failures are the `ValueError` of an unpacking and the missing-credentials exit. The latter only happens when the string lacks `@` or `/`. |
| ConnectStrings.FullString | Oracle.py:438-469 | `user/password@tns` is recomposed as it stands, with no prompt and no emptiness check, even for an empty user or password. |
| ConnectStrings.UserPassword | Oracle.py:448-449 | `user/password` with both parts given needs no prompt. |
| ConnectStrings.UserAtTns | Oracle.py:445-463 | `user@tns` takes the password from the prompt, and fails when that is empty. |
| ConnectStrings.BareTns | Oracle.py:442-463 | A bare TNS name takes both the user and the password from the prompts, and fails when either is empty. |
| ConnectStrings.PromptsForMissingOnly | Oracle.py:451-458 | A prompt answer matters only for a part the string leaves empty, and neither matters when the string holds both `@` and `/`. |
| ConnectStrings.TooManyParts | Oracle.py:439-449 | Two `@`, or two `/` without an `@`, make the unpacking fail with `ValueError`. |
| ConnectStrings.SysSuffix | Oracle.py:466-472 | The result starts with `user/password`, and ends in ` as sysdba` for the SYS user. |
| ConnectStrings.ComposeReadsBack | Oracle.py:432-474 | A composed string for a user other than SYS reads back as itself. |
| Formatting.ChunkString | Oracle.py:246-247 | A length of 0 fails (`range` raises `ValueError`). A negative length gives no chunk. For a positive length, the chunks put together give the text. |
| Formatting.ChunksJoin | Oracle.py:247 | The chunks put together give the text back. |
| Formatting.ChunksCount | Oracle.py:247 | There are `ceil(len / n)` chunks. |
| Formatting.ChunksSizes | Oracle.py:247 | Every chunk but the last has length `n`, and the last has 1 to `n` characters. |
| Formatting.NumCharIff | Oracle.py:1743-1746 | The prefix test agrees with membership in `dSep + '0123456789'`. |
| Formatting.Lead | Oracle.py:1746-1747 | The prefix holds no digit and no decimal-sign character, and it ends at the text's end or at one of those characters. |
| Formatting.SkipPrefix | Oracle.py:1746-1747 | The first loop stops exactly at `Lead`. |
| Formatting.LeadUnique | Oracle.py:1746 | Only one stopping point satisfies the loop's exit condition. |
| Formatting.DecimalAt | Oracle.py:1751-1754 | `-1`, or an occurrence of the decimal sign with none after it. |
| Formatting.FormatNumber | Oracle.py:1733-1767 | The result is `Formatted`: the prefix, the regrouped middle with its last character dropped, and the decimal part. |
| Formatting.GroupThousands | Oracle.py:1762-1765 | The second loop yields groups of three taken from the right, each followed by `tSep`. |
| Formatting.GroupsFacts | Oracle.py:1763-1765 | The groups put together give the digits. Every group but the first has three characters, and the first has one to three. |
| Formatting.GroupedJoin | Oracle.py:1763-1765 | The loop's output is the groups joined by the separator, plus one trailing separator. |
| Formatting.GroupsJoinLength | Oracle.py:1763-1767 | Joining adds exactly one separator between each two groups. |
| Formatting.PartsJoin | Oracle.py:1749-1760 | Prefix, middle and decimal part put together give the input. |
| Formatting.FormattedByParts | Oracle.py:1749-1767 | For a decimal sign of at most one character, the result is made of the three parts. |
| Formatting.FormatOneCharacter | Oracle.py:1733-1767 | With one-character separators, the result is the prefix, the middle's groups joined by `tSep`, and the decimal part; deleting the inserted separators gives the input back. |
| Formatting.PrefixFacts | Oracle.py:1746-1750 | The prefix holds no digit and no decimal sign, and what follows it starts with one. |
| Formatting.TailFacts | Oracle.py:1754-1758 | A decimal part kept aside starts with the decimal sign, holds no other, and follows a non-empty middle. |
| Formatting.EmptySeparatorDropsDigit | Oracle.py:1767 | As written, an empty `tSep` loses the last digit. |
| Formatting.NoDecimalSign | Oracle.py:1754 | Digits alone have no decimal point, so `rfind` gives -1. |
| Formatting.LeadingDecimalGrouped | Oracle.py:1756 | As written, `.` followed by digits comes out as its groups of three from the right joined by `,`: with three or more digits the result is longer than the input, so `.12345` becomes `.12,345`. |
| Formatting.LastPointFirst | Oracle.py:1754-1756 | In `.` followed by digits, the last decimal point is at index 0, which `cnt > 0` rejects. |
| Formatting.FixedFormat | Oracle.py:1733-1767 | With the three corrections, for every pair of separators, the result is the prefix, the middle's groups joined by `tSep`, and the decimal part; deleting the separators gives the input back. |
| Formatting.FixedPartsJoin | Oracle.py:1749-1760 | The corrected parts put together give the input. |
| Formatting.FixedGrouping | Oracle.py:1767 | Removing the last separator, whatever its length, leaves the groups joined. |
| Formatting.FixedEmptySeparator | Oracle.py:1767 | With the correction, an empty thousands separator leaves the input unchanged. |
| Formatting.FixedLeadingDecimal | Oracle.py:1756 | With the correction, a number that starts with its decimal point is left as it is. |
| Formatting.LongSignAt | Oracle.py:1746-1754 | In digits, a two-character sign `<>` and digits, the prefix is empty and the last sign stands right after the first digits. |
| Formatting.LongSignRepeated | Oracle.py:1757 | As written, with the decimal sign `<>` the result for digits `d`, `<>` and digits `e` is `d`'s groups joined by `,`, then `<>>`, then `e`: the sign's second character comes twice. |
| Formatting.FixedLongSign | Oracle.py:1757 | With the correction, the same input gives `d`'s groups joined by `,`, then `<>` once, then `e`. |
| Formatting.FixedAgrees | Oracle.py:1733-1767 | Where the code already does what is meant (a one-character `tSep`, a decimal sign of at most one character, and no decimal sign at the front of the number), the correction agrees with it. |

## Left out

- I/O. Files are a map from path to contents, and `ORACLE_HOME` is an `Option`. The messages
  the source prints before exiting or returning are not modelled.
- Prompts. `input`, `raw_input` and `getpass` in `ParseConnectString` are the two prompt
  parameters. Their answers are consulted only where the source prompts.
- Base64. In `GetPassword` the decoder is the function parameter `decode`. It returns `None`
  where `b64decode` or the UTF-8 decoding raises.
- Passwords.GetPassword: when the file cannot be opened, the source prints a message and then
  raises on the unbound `pwdContents`. The model ends this case with `PasswordsUnreadable`.
- Messages.LookupError: the `(1, [])` returned without `ORACLE_HOME` is `Err(HomeUnset)` here,
  because the function otherwise returns a list. The "Error not found" message is omitted;
  the result is then the empty list.
- Messages.LookupError: the header match reassigns `ErrCode` to the matched text, but nothing
  reads it before the function ends. The model does not carry it.
- Oratab.GetAsmHome: it takes the oratab text. `LoadOratab`'s search for the file is not
  modelled. When no oratab file exists, `otab` is never assigned and the test `otab == ''`
  raises `UnboundLocalError`; only a file that exists but cannot be opened gives `{}`, and
  then `""`.
- Case mapping. `Text.Upper` and `Text.Lower` map only the ASCII letters, where Python maps
  all of Unicode. This affects the user comparison in `GetPassword`, the SYS test in
  `ParseConnectString`, the `ComponentList[0].upper() == 'ALL_COMPONENTS'` test in
  `ErrorCheck`, and the upper-cased facility keys and `lower()` of the error code.
- Regular expressions are modelled for literal keys, codes and facilities. A regex
  metacharacter inside the record key of `ParseSqlout`, the code of `LookupError` or a
  facility name is read literally.
- Messages.IntLiteral accepts ASCII digits only. It leaves out the other Unicode digits and
  the `_` separators that `int()` also takes.
- Formatting.ChunkString: it returns the list of chunks at once, where the source returns a
  lazy generator. The error for a length of 0 is raised when the generator is built.
- Formatting.FormatNumber: the `None` input (which returns the integer 0) and the `str()`
  conversion of non-string input are left out; the model takes a string.
- Formatting.FormatOneCharacter: it covers decimal signs of at most one character. For a
  longer sign, `rhs = dSep + s[cnt+1:]` skips only the sign's first character, so its other
  characters appear twice. `Formatted` models that case as written; `LongSignRepeated` shows
  it for the sign `<>` (see Findings).
- ErrorScan.Match: `\d` in the pattern matches every Unicode decimal digit, while the model
  accepts ASCII digits only. A line holding `ORA-١٢٣٤` is a finding for the source and not
  for the model.

## Behaviour worth noting

The model follows the code in each case:

- `LoadFacilities` tests the first field for emptiness before stripping it. A first field of
  blanks files its record under `""` (`Facilities.BlankKeyLine`).
- `ErrorCheck` records four digits after the hyphen, not the whole code. `ORA-00001` is
  recorded as `ORA-0000` (`ErrorScan.MatchFourDigits`).
- `ErrorCheck` gives one finding per candidate and line: the leftmost match only, with the
  candidates in sorted-key order.
- One skip test in `GetPassword` accepts only a single whitespace character before `#`. The
  test is redundant either way: a skipped line holds no colon, so the two-colon test would
  skip it anyway (`Passwords.SkippedHoldNoColon`).
- `ParseConnectString` neither prompts nor checks for empty parts when the string has both
  `@` and `/` (`ConnectStrings.FullString`).
- The `exit()` in `ParseSqlout` is caught by the bare `except`, so every matching line is
  recorded (`SqlOutput.ParseSqlout`).

## Findings

| source | as written | input that shows it | evidently intended | confidence | as-written member | corrected member |
|---|---|---|---|---|---|---|
| Oracle.py:1767 | `splt[ :-1 ]` drops exactly one character to remove the trailing separator | `FormatNumber('1234', '', '.')` returns `'123'` | remove `len(tSep)` characters, so an empty separator leaves `'1234'` | not executed | Formatting.EmptySeparatorDropsDigit | Formatting.FixedEmptySeparator |
| Oracle.py:1756 | `if (cnt > 0)` rejects a decimal sign at index 0 | `FormatNumber('.12345')` returns `'.12,345'` | `cnt >= 0`, keeping `.12345` as its decimal part | not executed | Formatting.LeadingDecimalGrouped | Formatting.FixedLeadingDecimal |
| Oracle.py:1757 | `rhs = dSep + s[cnt+1:]` skips only the first character of the decimal sign | `FormatNumber('1234<>5', ',', '<>')` returns `'1,234<>>5'` | skip the whole sign, `dSep + s[cnt+len(dSep):]`, giving `'1,234<>5'` | not executed | Formatting.LongSignRepeated | Formatting.FixedLongSign |
