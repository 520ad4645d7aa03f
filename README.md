# email-verifier: the `/verify` classification stream, modelled in Dafny

The service accepts a CSV upload and streams back one server-sent event for
each address it finds. For each row, `generate` takes the first column and
strips it. A blank result is skipped. Any other address gets exactly one
status, decided by stages that stop at the first failure:

- `Invalid Syntax`: the address does not match `^[\w\.-]+@[\w\.-]+\.\w+$`;
- `Invalid Domain`: the MX lookup of the part after `@` raised;
- `SMTP Failed`: `smtp_check` returned false: its own lookup of the domain raised, or listed no exchange (so `[0]` raised), or the conversation with the first listed exchange raised or did not get a 250 reply to RCPT;
- `Valid`: all three checks passed.

The event is `data: ` followed by `json.dumps({'email': email, 'status': status})` and then a blank line.

The model is split into six modules:

- `Wrappers`: the `Option` type.
- `Text`: the Python `str` operations the code calls, `strip()` (using
  Python's exact whitespace set) and `split`, and the model's own helpers:
  `join`, the inverse that pins `split` down, and first/last occurrence
  searches (`IndexOf`, `LastIndexOf`) that the syntax recogniser uses.
- `Syntax`: `is_valid_syntax` as a recogniser, with these properties proved:
  - it accepts exactly the pattern's language;
  - a valid address contains exactly one `@`;
  - facts about the shape of the domain.
- `Json`: `json.dumps` of a dict of strings, with Python's defaults (`ensure_ascii`, `", "` and `": "` separators). A decoder for exactly this output proves that the encoding is injective; separate lemmas (`EscapePrintable`, `DumpsIsPrintable`) prove that it is printable ASCII.
- `Checks`: `has_mx` and `smtp_check` over a DNS oracle and an SMTP oracle. Each check returns its boolean together with the list of oracle uses it made.
- `Stream`: the rest of `generate`:
  - the stage chain (`Assess`, and `Classify` as the imperative if/elif);
  - the event format;
  - the row loop, as the method `Generate`, proved against the functions `Emails`, `Events` and `QueriesOf`.

DNS and SMTP are parameters, bundled as `Network`:

- `resolve` maps a domain to the exchanges of its answer, or to `Raised`;
- `session` maps a probe (host, sender, recipient) to the RCPT reply code, or to `Failed` if any step raised.

Every oracle use is recorded as a `Query`. This makes the short-circuiting of the stages something the contracts can state.

## Model

| member | source | states |
|---|---|---|
| Text.StripLeftSuffix | app.py:42 | `lstrip` keeps a suffix of the input, drops only whitespace, and the kept text does not start with whitespace |
| Text.StripRightPrefix | app.py:42 | `rstrip` keeps a prefix of the input, drops only whitespace, and the kept text does not end with whitespace |
| Text.StripTrims | app.py:42 | `strip()` gives a slice of the field with only whitespace around it; neither of its ends is whitespace; it is empty exactly when the field is all whitespace |
| Text.StripIdempotent | app.py:42 | stripping a stripped address changes nothing |
| Text.IndexOf | app.py:11 | the first occurrence of a character, or none exactly when it does not occur |
| Text.LastIndexOf | app.py:11 | the last occurrence of a character, or none exactly when it does not occur |
| Text.Split | app.py:22 | `split(sep)` gives at least one piece, no piece contains the separator, and joining the pieces with it gives back the input |
| Text.SplitJoin | app.py:22 | splitting a join of separator-free pieces gives back those pieces |
| Syntax.FullMatchIsPattern | app.py:11 | the recogniser accepts exactly L `@` A `.` B, where L and A are non-empty runs of `[\w.-]` and B is a non-empty run of `\w` |
| Syntax.ValidSyntaxIsPattern | app.py:10-11 | `is_valid_syntax` accepts exactly the pattern's language, optionally followed by one newline, since `$` also matches before a final newline |
| Syntax.Matched | app.py:11 | the text the pattern matched is in its language and is the address, with or without a final newline |
| Syntax.ValidSplit | app.py:11 | a valid address splits on `@` into exactly the text before and after the pattern's `@` |
| Syntax.ValidSyntaxHasOneAt | app.py:47 | a valid address has exactly two `@`-pieces, so `email.split('@')[1]` is in range, and the pieces joined by `@` give back the address |
| Syntax.DomainOf | app.py:47 | the domain of a valid address: the address is some `@`-free local part, then `@`, then the `@`-free domain |
| Syntax.DomainShape | app.py:11 | the domain of a valid address contains a `.`; the text before its last `.` is non-empty; the text after it contains no `-`; without a final newline the domain matches `[\w.-]+\.\w+` |
| Checks.HasMx | app.py:13-18 | one MX lookup of the domain, and the result is true iff that lookup raised nothing, even when the answer lists no exchange |
| Checks.SmtpCheck | app.py:20-32 | no `@` means false with no oracle use; otherwise it looks up `split('@')[1]`; with no first exchange the result is false after that lookup alone; otherwise one conversation with the first exchange, from `test@example.com`, to the address; true iff RCPT got 250 |
| Checks.SmtpCheckUsesFirstExchangeOnly | app.py:23 | two networks that agree on the first exchange and on the conversations give the same verdict, whatever the rest of the answer is |
| Json.Hex4RoundTrip | app.py:55 | a `\uXXXX` escape holds the code unit it was written from |
| Json.EscapeCharRoundTrip | app.py:55 | each character's escape reads back as that character, whatever follows |
| Json.EscapeRoundTrip | app.py:55 | the escaped string body, with its closing quote, reads back as the string and the text after it |
| Json.EscapePrintable | app.py:55 | with `ensure_ascii` the escaped text is printable ASCII only |
| Json.DumpsRoundTrip | app.py:54-55 | the serialised dict reads back as the same items in the same order, so distinct dicts never serialise alike |
| Json.DumpsIsPrintable | app.py:54-55 | the serialised dict is printable ASCII |
| Stream.StatusOfLabel | app.py:46-52 | reading a label back gives a status whose label it is |
| Stream.LabelRoundTrip | app.py:46-52 | each status's label reads back as that status, so the four labels are distinct |
| Stream.SyntaxStageFirst | app.py:45-46 | `Invalid Syntax` exactly when the syntax check fails, and the oracles are used exactly when it passes |
| Stream.DomainStageSecond | app.py:47-49 | for a well-formed address, the first oracle use is the MX lookup of its domain, and the status is `Invalid Domain` iff that lookup raised; when it raised, that lookup is the only oracle use (`smtp_check` is skipped), and otherwise the rest of the oracle uses are exactly those of `smtp_check` |
| Stream.SmtpStageLast | app.py:49-50 | a conversation happens only when the syntax passed and the MX lookup raised nothing; it goes to the first exchange, from the fixed sender, to this address |
| Stream.ValidMeansAccepted | app.py:45-52 | `Valid` iff the address is well-formed, its domain's lookup gives a first exchange, and the conversation with it gets RCPT 250 |
| Stream.EventRoundTrip | app.py:54-55 | each event reads back as its address and status |
| Stream.EventIsOneFrame | app.py:55 | no line break occurs before the blank line that ends the event, so a reader dispatches it as one message |
| Stream.FirstEmptyRow | app.py:41-42 | the first row with no column at all (whose `row[0]` raises), or none when every row has a column |
| Stream.Processed | app.py:41-42 | the rows the loop gets through all have a first column |
| Stream.EmailsFollowRows | app.py:41-44 | the addresses correspond one to one with the rows whose stripped first column is non-empty, in row order, and each is that column stripped |
| Stream.EventsAt | app.py:54-55 | one event per address, the k-th event being the event of the k-th address with its assessed status |
| Stream.Classify | app.py:45-52 | the if/elif chain gives the status and the oracle uses of the stage specification `Assess` |
| Stream.RowStep | app.py:41-55 | one more row adds nothing when its stripped column is empty, and otherwise exactly its event and its oracle uses |
| Stream.Generate | app.py:40-55 | the loop yields exactly the events of the addresses of the processed rows, in order, and makes exactly their oracle uses; it reports the row whose `row[0]` raised |

## Left out

- The Flask application, CORS, the route, `Response` and `app.run` (app.py:1-6, 34-37, 58-61): framework plumbing. `Generate` returns the whole event sequence instead of yielding lazily.
- Decoding the upload and parsing it with `csv.reader` (app.py:36-38): the input is a sequence of rows, each a sequence of strings.
- A truly blank CSV line gives an empty row, and `row[0]` then raises IndexError. The model ends the stream there and reports the row's index, and it does not skip such rows. What the client then sees depends on Flask and is not modelled.
- Real DNS resolution and SMTP sessions: these are the `Network` oracles.
  - Timeouts, connection behaviour and the protocol exchange itself are not modelled.
  - A session is one outcome: the RCPT code, or failure at any step. This includes QUIT raising after a 250, which the source also counts as false.
- The MX answer is given in the resolver's order, and `str(exchange)` is taken to be the oracle's host string as is.
- `Checks.HasMx` and `Checks.SmtpCheck` both consult the same `resolve` function, so the two lookups of one address always get the same answer. The live service can see different answers.
- `socket.setdefaulttimeout(5)` (app.py:8) and `time.sleep(0.25)` (app.py:56): I/O configuration and pacing.
- `Syntax.FullMatchIsPattern`: `\w` is approximated by ASCII `[A-Za-z0-9_]`. Python 3's `\w` on `str` also matches non-ASCII letters and digits, which are not modelled.
- app.py does none of the following, so neither does the model:
  - disposable-domain filtering;
  - third-party fallback providers;
  - trying several MX hosts in preference order;
  - the `Unknown`/`Invalid` statuses;
  - proxies;
  - the load-balancing front.
