# Signup helper core: code extraction, mailbox client, ledger and cycle decisions

This project models, in Dafny, the deterministic core of a tool that signs up
accounts on a web service through a browser. The tool uses a disposable
DuckMail mailbox to receive the verification code and records each successful
account in a CSV ledger.

- `chars.dfy` (module `Chars`) holds the shared pieces:
  - an `Option` type and Python truthiness of an optional string;
  - the character classes the patterns use (`\d`, `\w`, `\s`);
  - substring search, `str.strip()`, `str.lower()` on ASCII letters, and the case folding that IGNORECASE applies;
  - decimal numerals, as `str(n)`, `isdigit()` and `int(s)` treat them.
- `extract.dfy` (module `CodeExtractor`) models `DuckMailClient._extract_code`.
  Its two regular expressions are written as explicit scanners:
  - stage 1 is the labelled pattern `(?:验证码|code|verification|passcode|pin).*?[:：]\s*([A-Za-z0-9]{4,8})\b`, case-insensitive, with `.` matching newlines. Ignoring case folds the ASCII capitals and four non-ASCII letters onto ASCII letters: U+0130 and U+0131 onto `i`, U+017F onto `s`, U+212A onto `k`. This applies both to the keywords and to the class `[A-Za-z0-9]`;
  - stage 2 is the fallback `\b\d{6}\b`.
  Each scanner is proved equal to a declarative statement of its pattern: the leftmost match, and for stage 1 the nearest colon after the keyword.
- `mailbox.dfy` (module `Mailbox`) models the client's state and methods:
  - the class `MailClient`, with fields `email`, `password`, `accountId` and `token`;
  - `register`, `login`, `wait_for_code` and `delete`.
  The HTTP replies, the random string and the clock are parameters. The polling loop receives the polls that start before its deadline. Each poll is the reply to the message listing and the replies the service gives to the detail request for each message id.
- `ledger.dfy` (module `Ledger`) models `get_next_id` and `save_account`. The ledger is a list of rows plus a flag that says whether the file exists.
- `driver.dfy` (module `SignupDriver`) models the decisions inside `run_browser_cycle`:
  - the user agent;
  - the fallback chains of element lookups;
  - the ten-attempt wait for the code input;
  - the choice of the verify button;
  - the five-round wait for the final URL and its verdict;
  - saving the account on success.

Two behaviours of the source are easy to miss, and the model keeps both:
- The outcome is classified even when five rounds pass without a success URL. The attempt is not abandoned (auto_register_browser.py:243-258).
- The ledger's header is written only when the file does not exist (auto_register_browser.py:67-74). An existing empty file therefore gets no header, and its first two records both get id 1 (`Ledger.EmptyFileRepeatsFirstId`).

## Model

| member | source | states |
|---|---|---|
| `Chars.Strip` | auto_register_browser.py:226 | `str.strip()` returns the text less a leading and a trailing run of whitespace (a slice `s[a..b]` with only whitespace before `a` and after `b`), and the result neither starts nor ends with whitespace |
| `Chars.Lower` | auto_register_browser.py:228 | `str.lower()` keeps the length and lower-cases each ASCII capital, leaving other characters alone |
| `Chars.StripEmpty` | auto_register_browser.py:226-228 | a stripped button text is empty exactly when every character of the text is whitespace |
| `Chars.StripKeepsMarker` | auto_register_browser.py:226-228 | a marker without whitespace occurs in the stripped text exactly when it occurs in the raw text |
| `Chars.LowerStrip` | auto_register_browser.py:226-228 | lower-casing and stripping commute, so `btn_text.lower()` sees the raw text's letters |
| `Chars.ParseDecimalString` | auto_register_browser.py:59-60 | an id written with `str` is read back by `int` as the same number |
| `Chars.DecimalSuffix` | mail_client.py:47 | the last k digits of `str(n)` read as n modulo 10^k |
| `CodeExtractor.KeywordEndIsAlternation` | mail_client.py:129 | the keyword test succeeds exactly when one of the five keywords matches case-insensitively at the position, and it ends where that keyword ends |
| `CodeExtractor.SpelledKeywords` | mail_client.py:129 | each letter-by-letter keyword test is the case-insensitive match of that keyword |
| `CodeExtractor.Tail` | mail_client.py:129 | the tail scanner's capture starts at or after its position and has 4 to 8 characters |
| `CodeExtractor.TailIsPattern` | mail_client.py:129 | the tail scanner returns exactly the one capture that `\s*([A-Za-z0-9]{4,8})\b` admits from a position |
| `CodeExtractor.ScanColons` | mail_client.py:129 | the lazy `.*?` stops at a colon that the tail can follow, at or after the keyword's end |
| `CodeExtractor.ScanColonsNearest` | mail_client.py:129 | no colon that the scan passed over can be followed by the tail |
| `CodeExtractor.HitMatches` | mail_client.py:129 | the colon found after a keyword completes a match with the tail's capture, and no nearer colon does |
| `CodeExtractor.ScanLabel` | mail_client.py:130 | the search reports a start at or after its position where a keyword matches, with the colon and capture the lazy scan finds after that keyword |
| `CodeExtractor.ScanLabelMatches` | mail_client.py:129-130 | the search's result is a match, with its capture and with the nearest colon for its keyword |
| `CodeExtractor.ScanLabelLeftmost` | mail_client.py:130 | no keyword position that the search passed over starts a match |
| `CodeExtractor.SearchIsMatch` | mail_client.py:129-130 | the search's result satisfies the declarative pattern |
| `CodeExtractor.SearchPrecedes` | mail_client.py:130 | every match of the pattern starts at or after the search's result, and a match at the same keyword has its colon no nearer |
| `CodeExtractor.SearchIsLeftmost` | mail_client.py:130 | the search's result is the leftmost match of the pattern |
| `CodeExtractor.LabelledCode` | mail_client.py:129-131 | stage 1 returns a code of 4 to 8 characters, or nothing |
| `CodeExtractor.LabelledCodeOfSearch` | mail_client.py:130-131 | stage 1 returns the capture of the search's result |
| `CodeExtractor.LabelledCodeIsLeftmostMatch` | mail_client.py:129-131 | a stage-1 code is the group of the leftmost match: no match has its keyword further left, or the same keyword with a nearer colon |
| `CodeExtractor.CodeSpanText` | mail_client.py:129 | a captured span consists of characters of `[A-Za-z0-9]` read without case |
| `CodeExtractor.LabelledCodeShape` | mail_client.py:129-131 | a stage-1 code is 4 to 8 characters of `[A-Za-z0-9]` read without case, followed in the text by a non-word character or the end |
| `CodeExtractor.LabelledCodeComplete` | mail_client.py:129-131 | whenever the pattern matches somewhere, stage 1 returns a code |
| `CodeExtractor.LabelledCodeIffMatches` | mail_client.py:129-131 | stage 1 returns a code exactly when the pattern matches somewhere |
| `CodeExtractor.ScanSixDigits` | mail_client.py:134-135 | the six-digit scan returns a word-bounded run of six digits, and none lies further left |
| `CodeExtractor.BareDigitsCode` | mail_client.py:134-135 | stage 2 returns a code of six characters, or nothing |
| `CodeExtractor.BareDigitsLeftmost` | mail_client.py:134-135 | stage 2 returns the leftmost word-bounded run of six digits |
| `CodeExtractor.BareDigitsNone` | mail_client.py:134-135 | stage 2 returns nothing exactly when the text has no word-bounded run of six digits |
| `CodeExtractor.ExtractCode` | mail_client.py:122-137 | a returned code has 4 to 8 characters |
| `CodeExtractor.LabelTakesPrecedence` | mail_client.py:130-135 | when the labelled pattern matches, its capture is returned, even if bare digits appear earlier |
| `CodeExtractor.FallbackIsLeftmostDigits` | mail_client.py:130-135 | without a labelled match, the leftmost bare six-digit run is returned |
| `CodeExtractor.ExtractNoneIff` | mail_client.py:130-137 | nothing is returned exactly when neither pattern matches anywhere |
| `CodeExtractor.ColonNeeded` | mail_client.py:129 | the labelled pattern cannot match a text without a colon |
| `CodeExtractor.DigitsOnlyText` | mail_client.py:134-135 | a text of digits alone yields a code exactly when it has six digits, so seven or more digits yield none |
| `CodeExtractor.ExampleLabelled` | mail_client.py:129-131 | `code: AB12CD` yields `AB12CD` |
| `CodeExtractor.ExampleFullWidthColon` | mail_client.py:129-131 | `PIN：7X9Q` yields `7X9Q`: upper-case keyword and full-width colon |
| `CodeExtractor.ExampleDotlessI` | mail_client.py:129-131 | `pın: ABCD` yields `ABCD`: the dotless i matches the `i` of `pin` once case is ignored |
| `Mailbox.ChooseDomain` | mail_client.py:35-43 | the domain is the first listed domain of a 200 listing that has one, and `duck.com` otherwise |
| `Mailbox.Stamp` | mail_client.py:47 | the stamp has one to four ASCII digits |
| `Mailbox.StampIsClockModulo` | mail_client.py:47 | the stamp reads as the clock's seconds modulo 10000, with four digits once the clock reads 1000 or more |
| `Mailbox.Address` | mail_client.py:48 | the address is `t`, the stamp and the random part, then `@` and the domain |
| `Mailbox.Password` | mail_client.py:49 | the password is `Pwd`, the random part and the stamp |
| `Mailbox.AddressSplits` | mail_client.py:46-48 | a generated address splits at its first `@` into `t` + stamp + random part and the chosen domain |
| `Mailbox.PasswordMatchesAddress` | mail_client.py:46-49 | the password carries the address's random part and stamp, in the other order |
| `Mailbox.Content` | mail_client.py:108 | the content is the truthy `text`, else the truthy `html`, else empty, and it is empty only when neither is truthy |
| `Mailbox.NewestId` | mail_client.py:101-105 | a detail is requested exactly for a 200 listing with a first message that has an id, and for that id |
| `Mailbox.PollCode` | mail_client.py:100-112 | a poll yields a code only when the newest message's id was listed and its detail request did not fail, and then the code is the one extracted from that detail's content; the code has 4 to 8 characters |
| `Mailbox.PollReadsNewestOnly` | mail_client.py:102-105 | the messages listed after the newest never change what a poll yields |
| `Mailbox.PollsMade` | mail_client.py:97-120 | the wait makes no more polls than there are before the deadline |
| `Mailbox.PollsStopAtFirstCode` | mail_client.py:97-120 | the wait's code comes from the last poll made and no earlier poll yielded one; with no code, every poll was made and none yielded one |
| `Mailbox.FailedPollSkipped` | mail_client.py:97-118 | a failed or empty poll does not end the wait, and the outcome is that of the later polls |
| `Mailbox.FirstCode` | mail_client.py:97-120 | a code found by the wait has 4 to 8 characters |
| `Mailbox.MailClient.constructor` | mail_client.py:21-27 | a new client has no address, password, account id or token |
| `Mailbox.MailClient.Register` | mail_client.py:29-63 | sets the address `t`+stamp+random+`@`+domain and the password `Pwd`+random+stamp before the request; succeeds exactly on 200 or 201, storing the returned id only then; leaves the token alone |
| `Mailbox.MailClient.Login` | mail_client.py:65-80 | without an address it fails and changes nothing; otherwise it succeeds exactly on 200 and then stores the reply's token |
| `Mailbox.MailClient.WaitForCode` | mail_client.py:82-120 | without a token and with a failed login it returns nothing after no polls; otherwise it returns the first code any poll yields, after polling up to and including that poll |
| `Mailbox.MailClient.Delete` | mail_client.py:139-149 | the deletion request is sent exactly when both the account id and the token are set |
| `Ledger.Record` | auto_register_browser.py:75 | the saved row has four fields: the id written in decimal, which reads back as the id, then the address, the password and the date |
| `Ledger.NextId` | auto_register_browser.py:50-63 | the next id is at least 1 |
| `Ledger.Saved` | auto_register_browser.py:65-75 | a save keeps the earlier rows, adds the header only for a new file, and ends with the record carrying the next id |
| `Ledger.SavedIdFollowsLast` | auto_register_browser.py:57-60 | after a save to a missing or non-empty file, the next id is one more than the id just saved |
| `Ledger.SavedIds` | auto_register_browser.py:65-75 | successive saves give one id per record |
| `Ledger.SavesAreConsecutive` | auto_register_browser.py:50-75 | successive saves number their records consecutively from the next id |
| `Ledger.FreshLedgerCountsFromOne` | auto_register_browser.py:50-75 | starting without a file, the records get ids 1, 2, 3, ... |
| `Ledger.EmptyFileRepeatsFirstId` | auto_register_browser.py:52-57 | an existing empty file gets no header, so two saves both get id 1 |
| `Ledger.CsvLedger.GetNextId` | auto_register_browser.py:50-63 | returns the ledger's next id |
| `Ledger.CsvLedger.SaveAccount` | auto_register_browser.py:65-75 | returns the next id; the rows become the saved rows and the file exists afterwards |
| `SignupDriver.UserAgentNamesVersion` | auto_register_browser.py:44-48 | the user agent names the Chrome version it was built from |
| `SignupDriver.RandomUserAgent` | auto_register_browser.py:44-48 | a drawn user agent names the listed version that was drawn |
| `SignupDriver.RandomUserAgentsDiffer` | auto_register_browser.py:44-48 | different draws give different user agents |
| `SignupDriver.FirstFound` | auto_register_browser.py:129-131 | an `a or b or c` lookup chain (also at lines 159-160 and 177-178) yields nothing exactly when every lookup failed |
| `SignupDriver.FirstFoundIsFirst` | auto_register_browser.py:129-131 | a lookup chain yields the first element found |
| `SignupDriver.AwaitCodeInput` | auto_register_browser.py:175-181 | at most ten attempts; the result comes from the last attempt made, every earlier attempt found nothing, and nothing found means ten attempts |
| `SignupDriver.ButtonLabel` | auto_register_browser.py:226 | a missing or empty text gives an empty label; otherwise the label is the text with only its leading and trailing whitespace removed, it is empty exactly when the text is all whitespace, and it neither starts nor ends with whitespace |
| `SignupDriver.IsVerifyLabel` | auto_register_browser.py:228 | a qualifying label is not empty and has no stretch that lower-cases to `resend` |
| `SignupDriver.VerifyLabelOfRawText` | auto_register_browser.py:226-228 | a button qualifies exactly when its raw text has a non-space character and contains neither `重新` nor `发送`, and its lower-cased text does not contain `resend` |
| `SignupDriver.ChooseVerifyButton` | auto_register_browser.py:223-240 | returns the first qualifying button, and nothing exactly when no button qualifies |
| `SignupDriver.Classify` | auto_register_browser.py:250-257 | the verdict is failure exactly when the URL contains `verify`, `oob` or `error` |
| `SignupDriver.ExampleFailureWins` | auto_register_browser.py:247-257 | a URL with both a success marker and a failure marker is a failure |
| `SignupDriver.WaitReads` | auto_register_browser.py:243-248 | the wait reads the URL between one and five times |
| `SignupDriver.WaitReadsStops` | auto_register_browser.py:243-248 | the wait ends at the first URL with a success marker, or after five reads |
| `SignupDriver.AwaitOutcome` | auto_register_browser.py:243-254 | the loop makes the reads the wait prescribes, and the verdict comes from the one read after it |
| `SignupDriver.FinishCycle` | auto_register_browser.py:243-258 | the account is saved exactly on a success verdict, and otherwise the ledger is unchanged |

## Left out

- HTTP requests, JSON decoding and proxies are not modelled. Each request is replaced by its reply, a status with a decoded body, or `Raised` for any exception inside the client's `try` block. A failed JSON decode and a missing key that raises count as `Raised`.
- `Mailbox.PollCode`: a poll's detail replies are a function of the message id, decided before the poll; the detail request's status is not looked at, as in the source.
- Wall-clock time and the sleeps are not modelled. The deadline of `wait_for_code` becomes the sequence of polls that start before it, so the 3-second interval and the 180- or 300-second timeouts are not modelled.
- Randomness is not modelled. The random string, the clock reading and the user-agent draw are parameters. `Mailbox.AddressSplits` assumes the random string has the form `random.choices` produces.
- The browser (DrissionPage) is not modelled: page loads, clicks, typing, injected JavaScript and the JS-click fallback. Element lookups are `Option` values, button texts are optional strings, and `page.url` is a sequence of successive values.
- The step-by-step sequencing of `run_browser_cycle` is not modelled. Its early returns when the mailbox, email input, code input or code is missing are not modelled either. The model covers the decisions it makes and `FinishCycle`.
- `SignupDriver.AwaitOutcome`, `SignupDriver.AwaitCodeInput`: the environment must supply enough lookups and URL reads for every round; the source obtains them from the live page.
- The ledger file's CSV quoting, the `utf-8-sig` byte-order mark, and read or write exceptions are not modelled. Rows are what a CSV reader returns, and a failed read in `get_next_id` would give 1. Dates are opaque strings.
- `Ledger.NextId` treats only ASCII digits as digits. Python's `isdigit()` also accepts other Unicode digits, and then `int()` may convert them or raise.
- `SignupDriver.IsVerifyLabel` lower-cases only ASCII capitals. Python's `str.lower()` changes many other letters too. Only U+0130, which becomes `i` and a combining dot, and U+212A, which becomes `k`, produce ASCII letters, and neither can form `resend`. So the `resend` test gives the same answer as Python.
- `CodeExtractor.ExtractCode` approximates Python's Unicode `\w` and `\d`. `\w` is ASCII letters, digits and underscore, U+0130, U+0131, U+017F and U+212A, full-width letters and digits, and the CJK ideographs U+4E00..U+9FFF. `\d` is ASCII and full-width digits. `\s` is the full set that `str.isspace()` accepts.
- Logging, `print` output and the performance timings are not modelled.
- `clash_manager.py` is not part of this model. It is unused by the tool and consists of process control, HTTP calls and YAML rewriting.
- The outer endless retry loop with its cooldown is not modelled.
