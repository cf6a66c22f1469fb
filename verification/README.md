# ICMP ping web service — a Dafny model

The service answers `GET /ping?host=<IPv4 literal>` by running the system's
`ping` utility once, asking for two echo requests. It answers 200 when the
utility exits normally and the reply count it reads from the summary is at
least one, and 500 otherwise (some summaries read as zero; see below).
After a normal exit the body is the utility's text. After a timeout, a
non-zero exit or another error it is a message naming the target, wrapping
the utility's output, or giving the error. `GET /health` always answers 200
`OK`. An optional HTTP Basic gate, configured from the environment at
start-up, guards `/ping`.

The model follows the service's single source file, `app.py`, with one
module per concern:

- `Wrappers` (`wrappers.dfy`): `Option`, the "may be absent" of query
  parameters, credentials and environment variables.
- `Text` (`text.dfy`): the string operations the service relies on. These
  are `str.strip`, `str.lower`, the `in` substring test, `int()` on digit
  strings, and `str.split` / `str.join` on `.`. The last two are used only
  to state what the address check accepts.
- `IPv4` (`ipv4.dfy`): `IP_REGEX` and `is_valid_ip`. The regular
  expression is modelled three ways, and the three are proved to accept the
  same strings:
  - alternative by alternative (`MatchesPattern`);
  - as a hand-written left-to-right recogniser (`Recognise`);
  - as a plain description: split on dots, exactly four parts, each one to
    three digits worth at most 255 (`WellFormed`).

  `IsValidIp` adds Python's `$` rule, which also matches just before one
  final line feed.
- `ReceivedCount` (`received.dfy`): the reply count read from the utility's
  summary. Each of the two regular expressions, `(\d+)\s+received` and
  `Received\s*=\s*(\d+)` (both with `re.I`), is a scanner tried at one
  position. `re.search` is a leftmost search over positions. Each scanner
  is proved equal to a declarative description of its matches, greedy `\d+`
  included. The count is therefore the number in the leftmost match, or 0
  when nothing matches.
- `Probe` (`probe.dfy`): `ping_host`. How the child process ended is an
  input (`ProcessOutcome`), and every outcome becomes a success flag plus a
  text.
- `Auth` (`auth.dfy`): the start-up configuration, including the
  `BASIC_AUTH_ENABLED` flag, and the credential comparison.
- `Server` (`server.dfy`): the Basic gate, the `/ping` and `/health`
  handlers, and dispatch. Each response is a function of the configuration,
  the request and the process outcome.

Two behaviours of the code worth knowing:

- **Choosing the pattern.** The code picks between the two patterns with a
  case-sensitive test for the word `received` (`app.py:71`). The pattern
  searches themselves ignore case. An output that contains only
  `RECEIVED` is therefore read with the Windows pattern.
- **Trailing line feed.** `is_valid_ip` accepts one trailing line feed
  after an address (`app.py:29-32,50-52`). The model keeps that:
  `IPv4.TrailingLineFeedAccepted`. It also proves that the request handler
  never meets such an input, because the host is stripped first
  (`IPv4.StrippedIsValidIp`).

A consequence the model makes explicit: a summary that puts a word between
the count and `received`, as BSD and BusyBox ping print
(`2 packets transmitted, 2 packets received`), matches neither pattern. Such
a summary reads as zero replies, so a reachable host gets 500
(`ReceivedCount.BsdSummaryIsZero`, `Server.BsdSummaryResponse`).

## Model

| member | source | states |
|---|---|---|
| Text.TrimStartSpec | app.py:94 | stripping the front keeps a suffix of the input, removes only whitespace, and leaves no whitespace at the front |
| Text.TrimEndSpec | app.py:94 | stripping the end keeps a prefix of the input, removes only whitespace, and leaves no whitespace at the end |
| Text.StripSpec | app.py:94 | `strip()` returns a contiguous slice of the host parameter with only whitespace on either side of it, and with no whitespace at either of its ends |
| Text.StripUnchanged | app.py:94 | a host with no whitespace at either end is passed on unchanged |
| Text.StripIdempotent | app.py:94 | stripping an already stripped host changes nothing |
| Text.ContainsSuffix | app.py:84-88 | a message built as prefix + text contains the text |
| IPv4.OctetPatternIsOctet | app.py:30-31 | the three octet alternatives `25[0-5]`, `2[0-4][0-9]` and `[01]?[0-9][0-9]?` together match exactly the strings of one to three digits whose value is at most 255 |
| IPv4.OctetLeadingDigit | app.py:30-31 | a three-digit octet starts with 0, 1 or 2 |
| IPv4.ScanFromCorrect | app.py:29-32 | loop invariant of the recogniser: from any point of the scan, the rest is accepted exactly when what remains splits into the missing number of dot-separated octets |
| IPv4.RecogniseCorrect | app.py:29-32 | the recogniser accepts a string exactly when it splits on dots into four octets |
| IPv4.PatternCorrect | app.py:29-32 | the anchored pattern (three octet-dot groups, then an octet) accepts exactly the strings that split on dots into four octets |
| IPv4.IsValidIpSpec | app.py:50-52 | `is_valid_ip` holds exactly for a dotted quad, or for a dotted quad followed by one line feed |
| IPv4.TrailingLineFeedAccepted | app.py:50-52 | any dotted quad followed by a line feed passes `is_valid_ip` but is not itself a dotted quad |
| IPv4.StrippedIsValidIp | app.py:94-100 | on a stripped host, `is_valid_ip` is exactly the dotted-quad test |
| IPv4.DottedQuad | app.py:29-32 | any four octets joined by dots pass the check |
| IPv4.LeadingZerosAccepted | app.py:30-31 | `001.2.3.4` passes: the optional `[01]` admits leading zeros |
| IPv4.ResolverAccepted | app.py:29-32 | `8.8.8.8` passes |
| IPv4.MaxOctetAccepted | app.py:29-32 | `10.255.255.1` passes |
| IPv4.TrailingLineFeedExample | app.py:50-52 | `1.2.3.4` followed by a line feed passes `is_valid_ip` |
| IPv4.OutOfRangeRejected | app.py:29-32 | `999.1.1.1` and `256.1.1.1` are refused |
| IPv4.ThreePartsRejected | app.py:29-32 | `1.2.3` is refused |
| IPv4.FivePartsRejected | app.py:29-32 | `1.2.3.4.5` is refused |
| IPv4.MalformedRejected | app.py:29-32 | `1..2.3`, the empty string, `a.b.c.d` and `::1` are refused |
| ReceivedCount.DigitRunDigits | app.py:73-77 | the run `\d+` consumes holds only digits and stops at a non-digit or at the end (greedy) |
| ReceivedCount.SpaceRunSpaces | app.py:73-77 | the run `\s*` / `\s+` consumes holds only whitespace and stops at a non-space or at the end |
| ReceivedCount.DigitRunUnique | app.py:73-77 | a run of digits that cannot be extended is the one the greedy group takes |
| ReceivedCount.SpaceRunUnique | app.py:73-77 | a run of whitespace that cannot be extended is the one the pattern takes |
| ReceivedCount.UnixAtSpec | app.py:77 | `(\d+)\s+received` (any case) matches at a position exactly when digits, then whitespace, then the word stand there; the scanner then yields the value of those digits |
| ReceivedCount.UnixMatchIsScanned | app.py:77 | every match of the first pattern at a position is found by its scanner, with the digit group's value |
| ReceivedCount.WindowsAtSpec | app.py:73 | `Received\s*=\s*(\d+)` (any case) matches at a position exactly when the word, optional whitespace, `=`, optional whitespace and a maximal digit run stand there; the scanner yields that run's value |
| ReceivedCount.WindowsScanIsMatch | app.py:73 | whatever the second scanner accepts is a match of the pattern |
| ReceivedCount.WindowsMatchIsScanned | app.py:73 | every match of the second pattern is found by its scanner, with the digit group's value |
| ReceivedCount.SearchSpec | app.py:73-78 | `re.search` yields a number exactly when the pattern matches at some position and at no earlier one, and the number comes from that leftmost match |
| ReceivedCount.SearchNone | app.py:73-78 | `re.search` finds nothing exactly when the pattern matches at no position |
| ReceivedCount.UnixFirstCount | app.py:75-78 | when `received` occurs verbatim, the count is the number in the leftmost `<digits><space>received` match |
| ReceivedCount.UnixNoMatch | app.py:77-78 | when `received` occurs verbatim but the first pattern matches nowhere, the count is 0 |
| ReceivedCount.WindowsFirstCount | app.py:71-74 | when `received` does not occur verbatim, the count is the number in the leftmost `Received = <digits>` match |
| ReceivedCount.WindowsNoMatch | app.py:71-74 | when `received` does not occur verbatim and the second pattern matches nowhere, the count is 0 |
| ReceivedCount.LinuxSummaryCount | app.py:76-78 | a Linux summary `2 packets transmitted, d received` reads as `d`: the leading `2` is not taken for the count |
| ReceivedCount.WindowsSummaryCount | app.py:72-74 | the Windows summary `Received = 2` reads as 2 |
| ReceivedCount.BsdSummaryIsZero | app.py:77-78 | a summary `2 packets transmitted, d packets received` reads as 0 for every digit `d` |
| Probe.PingCommand | app.py:59-60 | the argument list is `ping`, then `-n` on Windows and `-c` elsewhere, then the count 2, then the target |
| Probe.PingHost | app.py:62-88 | only a normal exit can succeed; on a normal exit the text is the utility's output and success means at least one reply; a timeout, a non-zero exit or any other error fails with a message carrying the target, the utility's output or the error text respectively |
| Probe.SummaryOutcomes | app.py:80-81 | a Linux summary with 2 replies succeeds, one with 0 replies fails, and the Windows summary with 2 replies succeeds |
| Auth.ParseEnabledSpec | app.py:26 | an unset `BASIC_AUTH_ENABLED` enables authentication; a set one enables it exactly when it equals `1`, `true`, `yes` or `on` up to letter case |
| Auth.LoadConfigSpec | app.py:23-26 | a set user or password variable is used verbatim and an unset one gives its default; authentication is on exactly when the flag is unset or an enabling spelling up to letter case |
| Auth.DefaultConfig | app.py:23-26 | with no environment, authentication is on with user `admin` and the built-in password |
| Auth.ParseEnabledExamples | app.py:26 | `TRUE`, `Yes` and `ON` enable; `0`, `false`, `no`, `off` and the empty string disable |
| Server.GateSpec | app.py:35-47 | `/ping` answers 401 with the `Basic realm="Ping Server"` challenge exactly when authentication is on and the credentials are missing or differ in user name or password; otherwise the answer is the handler's |
| Server.AuthDisabledIgnoresCredentials | app.py:39-40 | with authentication off, `/ping` answers as the bare handler whatever credentials are sent |
| Server.WrongCredentialsRefused | app.py:41-45 | with authentication on, missing credentials, a wrong user name and a wrong password each give 401 |
| Server.PingHandler | app.py:93-105 | the handler answers 200, 400 or 500, and 400 exactly when the stripped host is not a dotted quad |
| Server.PingSpec | app.py:94-105 | after the gate: an empty stripped host gives 400 naming the missing parameter; a malformed one gives 400 naming the invalid address; a dotted quad gives the probe's text as plain text, 200 on success and 500 otherwise |
| Server.ProbeOnlyWhenValid | app.py:96-102 | when the gate refuses or the host is not a dotted quad, the response does not depend on the probe |
| Server.NormalExitResponse | app.py:102-105 | after a normal exit the body is the utility's output, and the status is 200 when it reports at least one reply and 500 otherwise |
| Server.AbnormalExitResponse | app.py:83-88 | a timeout, a non-zero exit or another error always gives 500 |
| Server.HealthAlwaysOk | app.py:108-110 | `/health` answers 200 `OK` for every configuration and request |
| Server.MissingHostExample | app.py:94-97 | with authentication off, a request without `host` gets 400 |
| Server.InvalidHostExample | app.py:99-100 | with authentication off, `host=999.1.1.1` gets 400 |
| Server.ProbedResponse | app.py:102-105 | an authorized request for a stripped dotted quad with a normal exit gets the output as plain text, with 200 or 500 decided by the reply count |
| Server.LinuxSummaryResponse | app.py:102-105 | on a Linux summary with `d` replies, `/ping` answers 500 when `d` is `0` and 200 otherwise, with the summary as body |
| Server.BsdSummaryResponse | app.py:102-105 | on a `packets received` summary, `/ping` answers 500 whatever the number of replies |
| Server.ReachableExample | app.py:91-105 | with authentication off, `host=8.8.8.8` and a Linux summary of 2 replies gets 200 |
| Server.UnreachableExample | app.py:91-105 | with authentication off, `host=10.255.255.1` with a Linux summary of 0 replies gets 500, whether the utility exits non-zero or normally |

## Left out

- Running the utility (`subprocess.check_output`, the 5-second kill, merging standard error into the output) is not modelled. How the run ended is the `ProcessOutcome` input of `Probe.PingHost`.
- The platform test `os.name == "nt"` is the `isWindows` parameter of `Probe.PingCommand`.
- Reading the environment is not modelled. `Auth.LoadConfig` takes the three variables as optional values.
- Flask plumbing is not modelled: routing by method (only GET is modelled; Flask also routes HEAD to the same handler, which drops the body, and answers OPTIONS itself without the gate; any other method gets 405), query-string decoding (a repeated `host` yields its first value) and `Authorization` header decoding. `Server.Request` holds the decoded host and credentials.
- The listening address and port of `app.run` (`app.py:113-114`) are not modelled.
- Line 70 (`output.lower().count("received")`) is not modelled. Both branches that follow overwrite its value, so it never reaches the result.
- Non-ASCII text is not modelled. Python's `\d`, `\s`, `str.isspace`, `str.strip`, `str.lower`, `re.I` and `int()` also act on Unicode digits, spaces and letters; the model restricts all of them to ASCII. The address pattern uses `[0-9]` and is ASCII either way.
- Response headers Flask adds itself (`Content-Length`, the charset on the content type) are not modelled. Only the status, the body, the content type and the challenge header are.
- The text of an arbitrary exception (`str(e)`) is not modelled. It is the `message` of `OtherError`.
- Probe.PingHost: does not model the limit that recent Python releases put on `int()` of a decimal string (4300 digits by default, configurable, absent in older releases). On such a release, a matched count longer than that raises `ValueError` inside the `try` (`app.py:74,78`), and `app.py:87-88` turns it into a failure with the unknown-error message. The model reads a count of any length, so for such an output it reports the utility's text with the success rule applied.
- ReceivedCount.ParseReceived: reads a digit group of any length, for the same reason as the line above.
- Probe.PingHost: for a timeout, a non-zero exit and another error, the contract states that the message carries the target, the utility's output or the error text. It does not state the full wording; the constants `TimeoutPrefix`, `FailurePrefix` and `UnknownErrorPrefix` hold that.
