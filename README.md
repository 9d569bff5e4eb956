# Log-rate collector: session state machines and host-list helpers

This project models the core of a desktop tool that estimates log rates of
Palo Alto Networks firewalls and log collectors over SSH. The model covers
two parts.

- **`web/collector.js`** has two text-driven shell sessions:
  - `collect` is a five-state machine. It turns the pager off, sends a probe
    command and reads the reply to classify the device. It then sends the
    device's statistics command, first right away and then on a 10-second
    interval, and collects `samples` rate strings.
  - `getConnectedDevices` is a two-phase machine. It sends the device
    listing command and then classifies the reply: a list of addresses,
    "empty" or "device".

  The regular expressions of these sessions are written out as
  hand-written matchers: the prompt, the two markers, the two rate
  captures and the address scan.
- **`web/index.js`** has the page's bookkeeping:
  - the list of host entries (`hasHost`, `addHost`, `addHosts`,
    `deleteHost`, `splitHosts`);
  - the parameters' ready flags (`setupParameters`, `checkParameters`,
    `ready`, `reject`);
  - the address field (`enterCSV`);
  - the device-type column fold and the CSV join of `importPanorama`.

Modules:

- `Wrappers`: `Option`.
- `Strings`: JavaScript `split` on one character, `join`, the `\s` class
  and the global whitespace removal.
- `Patterns`: the pattern constants of `web/collector.js:3-8` and
  `REGEX_ADDRESS` of `web/index.js:8-9`.
- `Collector`: the two sessions. Each is a class whose methods are the
  stream's "data" handler, the interval callback and the client's "error"
  handler. Each class also has a value view (`Sampler`, `Enumerator`) with a
  pure step function. Each method is proved to perform its step. The
  session properties are proved about the steps and about whole runs of
  events (`SamplerRun`, `EnumeratorRun`), starting from the initial state.
- `Index`: the form as a class `Form`.
  - `hosts` is the ordered list of `.address` entry names.
  - `ready` maps each parameter name to its ready flag.
  - `field` is the address input's value.
  - `hasHost` is the predicate `Form.HasHost`.
  - The loops of `splitHosts`, `addHosts`, `importPanorama` and the
    totals fold are methods with loop invariants, each proved against a
    specification function.

The written shell stream is the log `sent`, and a promise is the field
`outcome` (pending, resolved or rejected).

Behaviour of the code worth knowing:

- The enumerator resolves with every address match in order, repeats
  included. It does not return a de-duplicated set.
- The sampling interval is never cleared on an error or after the
  promise resolves. It stops only by its own `sample < samples` test.
- Classifying the device sends nothing. The first sampling command goes
  out on the next prompt, in `SAMPLE_REQUEST`.
- `resolve({samples: result, firewall})` hands out the `result` array
  itself. Rates that arrive after resolution are therefore still visible
  through the resolved object. The model keeps `Resolved(firewall)` and
  reads the samples from the session's `result`.
- The address pattern has no word boundaries. "256.1.1.1" yields
  "56.1.1.1", and "1.2.3.4567" yields "1.2.3.45".

## Model

| member | source | states |
|---|---|---|
| Strings.StripSpaces | web/index.js:77 | after removing `\s*` globally, no whitespace remains and every other character keeps its number of occurrences (the order is fixed by `StripSpacesConcat` and `StripSpacesChar`) |
| Strings.StripSpacesIdentity | web/index.js:77 | removing whitespace leaves a string unchanged exactly when it has none |
| Strings.StripSpacesConcat | web/index.js:77 | removing whitespace from a concatenation removes it from each part and keeps the parts in order, so the kept characters stay in their original order |
| Strings.StripSpacesChar | web/index.js:77 | a single character is removed exactly when it is whitespace and kept otherwise |
| Strings.Split | web/index.js:419 | `split(sep)` yields at least one piece, and no piece holds the separator |
| Strings.SplitCount | web/index.js:419 | `split(sep)` yields one more piece than there are separators |
| Strings.SplitNoSeparator | web/index.js:419 | a string without a comma splits to itself alone, so the `includes(",")` guard does not change the pieces |
| Strings.JoinSplit | web/index.js:419 | joining the pieces of a split with the separator gives the string back |
| Strings.SplitJoin | web/index.js:140-144 | splitting a join of non-empty separator-free pieces gives the pieces back |
| Strings.SplitConcat | web/index.js:79 | splitting `a + "," + b` yields the pieces of `a` followed by the pieces of `b` |
| Patterns.OctetIsByte | web/collector.js:4 | the octet alternation `25[0-5]\|2[0-4][0-9]\|[01]?[0-9][0-9]?` matches exactly the strings of one to three digits that denote at most 255 |
| Patterns.InnerOctetEnd | web/collector.js:4 | an octet that a dot follows is an octet-shaped digit string followed by that dot |
| Patterns.LastOctetEnd | web/collector.js:4 | the last octet is an octet starting at the cursor, and it is missing exactly when no digit starts there |
| Patterns.InnerOctetComplete | web/collector.js:4 | conversely, an octet followed by a dot at the cursor is always taken, ending just after that dot |
| Patterns.LastOctetLongest | web/collector.js:4 | the last octet taken is the longest octet at that position: alternation order and greedy `?` pick the longest match |
| Patterns.QuadEnd | web/collector.js:4 | the four-octet alternative, when it matches at the cursor, covers a dotted quad |
| Patterns.AddressAt | web/collector.js:4 | an address match at the cursor starts there, is not empty, and its text is the matched slice |
| Patterns.AddressAtComplete | web/collector.js:4 | "localhost" or a dotted quad at the cursor is always matched, and the match reaches at least to the end of that dotted quad |
| Patterns.FirewallRateAt | web/collector.js:6 | a firewall rate capture is a non-empty digit string |
| Patterns.FirewallRateAtSpan | web/collector.js:6 | a firewall rate match starts at the cursor with the label, then whitespace only, then the capture, which is the whole run of digits there |
| Patterns.FirewallRateAtIff | web/collector.js:6 | the firewall rate pattern matches at the cursor exactly when the label is there followed by whitespace and a digit |
| Patterns.PanoramaRateAt | web/collector.js:7 | a log-collector rate capture is digits, optionally followed by a dot and more digits |
| Patterns.DecimalEnd | web/collector.js:7 | the capture `[0-9]+(?:\.[0-9]+)?` takes the whole run of digits, and takes the fraction whenever a dot and a digit follow |
| Patterns.PanoramaRateAtSpan | web/collector.js:7 | a log-collector rate match starts at the cursor with the label, whitespace, "=", whitespace, then the capture, which cannot be extended by more digits or a skipped fraction |
| Patterns.PanoramaRateAtIff | web/collector.js:7 | the log-collector rate pattern matches at the cursor exactly when the label, whitespace, "=" and whitespace are followed by a digit |
| Patterns.ShellPromptIff | web/collector.js:8 | the prompt pattern `> $` holds exactly when the chunk ends in ">" and a space |
| Patterns.MatchAt | web/collector.js:3-8 | a match tried at the cursor starts there and ends within the chunk, and an address match is non-empty with the matched slice as its text |
| Patterns.TestIff | web/collector.js:44-80 | `test` succeeds exactly when the pattern matches at some position of the chunk |
| Patterns.Exec | web/collector.js:139 | `exec` from a cursor returns the leftmost match at or after the cursor: no position before it matches |
| Patterns.ContainsIff | web/collector.js:3-5 | the "Connected" and "Invalid syntax." tests succeed exactly when the literal occurs in the chunk |
| Patterns.Rate | web/collector.js:80-81 | `regex.exec(data)[1]` yields a capture exactly when `regex.test(data)` succeeds |
| Patterns.RateLeftmost | web/collector.js:80-81 | the captured rate is group 1 of the leftmost match: when the pattern first matches at some index, the rate is that match's capture |
| Patterns.RateShape | web/collector.js:6-7 | a captured rate has its pattern's shape: digits for a firewall, a decimal for a log collector |
| Patterns.QuadSplit | web/collector.js:4 | four octets joined by dots form a dotted quad |
| Patterns.AddressAtIsHost | web/collector.js:4 | every address match is "localhost" or four dot-separated octets |
| Patterns.HostOccurs | web/collector.js:133 | any address occurring in the chunk makes the address `test` succeed |
| Patterns.AddressesFrom | web/collector.js:139-141 | the `exec` loop from a cursor finds at most as many addresses as there are characters left, so it ends |
| Patterns.AddressesFromOccur | web/collector.js:139-141 | every address the `exec` loop collects occurs in the chunk at or after the cursor |
| Patterns.AllAddresses | web/collector.js:135-141 | the extraction from `lastIndex` 0 finds at most as many addresses as the chunk has characters |
| Patterns.AddressesFromAreHosts | web/collector.js:139-141 | every address the `exec` loop collects from a cursor on is a host token |
| Patterns.AllAddressesAreHosts | web/collector.js:135-141 | every address the enumerator extracts is "localhost" or a dotted quad |
| Patterns.AllAddressesNonEmpty | web/collector.js:133-141 | the `test` guarding extraction succeeds exactly when the `exec` loop finds at least one address |
| Patterns.SpaceStartsNoAddress | web/collector.js:4 | no address match starts at a whitespace character |
| Patterns.HostTokenMatched | web/collector.js:4 | a host token that whitespace or the end of the chunk follows is matched exactly, no shorter and no longer |
| Patterns.AddressesFromSpaced | web/collector.js:139-141 | from a cursor where whitespace-separated host tokens begin, the `exec` loop collects every one of them, in order, repeats kept |
| Patterns.AllAddressesSpaced | web/collector.js:135-141 | a chunk of host tokens separated by whitespace yields exactly those tokens, in order, repeats kept |
| Patterns.ExtractAddresses | web/collector.js:135-141 | after resetting `lastIndex`, the `exec` loop collects all leftmost non-overlapping address matches, in order, repeats kept |
| Collector.Line | web/collector.js:35-37 | the written line is the command followed by one carriage return |
| Collector.Settle | web/collector.js:87-98 | a promise that is settled keeps its outcome, and a pending one takes the new outcome |
| Collector.SettleOnce | web/collector.js:87-98 | once settled, later `resolve` or `reject` calls change nothing |
| Collector.CommandLineShape | web/collector.js:35-37 | every written line is one of the four commands followed by a single carriage return |
| Collector.StartSamplerInv | web/collector.js:24-30 | a fresh session satisfies the session invariant |
| Collector.SamplerStep | web/collector.js:44-94 | one chunk keeps the invariant and moves the state forward by at most one. It appends at most one command line and never rewrites earlier ones. The device type, command and pattern never change once chosen, and a settled promise stays settled |
| Collector.Prompt | web/collector.js:44-79 | a prompt in READY, DETECT_REQUEST or SAMPLE_REQUEST keeps the invariant, advances exactly one state, writes exactly one command line and leaves the device type, command, pattern and promise alone |
| Collector.Classify | web/collector.js:56-64 | selecting the device type's command and pattern keeps the session invariant, moves to SAMPLE_REQUEST with the given device type, sends nothing and leaves the outcome alone |
| Collector.Collect | web/collector.js:80-93 | recording a captured rate keeps the session invariant, stays in SAMPLE_RESPONSE, sends nothing, keeps the device type's command and pattern, and never changes a settled outcome |
| Collector.SamplerTick | web/collector.js:74-79 | a tick sends the sampling command and stays armed only while `sample < samples`; otherwise it disarms without sending, and nothing else changes |
| Collector.SamplerError | web/collector.js:97-99 | an error rejects a pending promise and changes nothing else, so the interval keeps running |
| Collector.SamplerEvent | web/collector.js:41-99 | any event keeps the invariant, never moves the state back, keeps the device type once chosen, only appends to the written lines and keeps a settled promise |
| Collector.SamplerRun | web/collector.js:21-110 | the same holds over any run of events |
| Collector.SamplerSendsCommandLines | web/collector.js:35-37 | every line a session has written is a command followed by a single carriage return |
| Collector.SamplingCommandCount | web/collector.js:71-79 | after pager-off and the probe, only the selected sampling command is written, at most `samples` times (once when `samples < 1`), and exactly `samples` times once the interval has stopped |
| Collector.ResolvedSamples | web/collector.js:80-93 | a resolved session holds at least `samples >= 1` rates, each of its device type's shape |
| Collector.PromptStates | web/collector.js:44-55 | in READY and DETECT_REQUEST a chunk ending in "> " advances one state and sends pager-off or the probe, and any other chunk changes nothing |
| Collector.SampleRequestStep | web/collector.js:65-79 | in SAMPLE_REQUEST a prompt sends the first sampling command of the detected device type, sets the counter to 1 and the interval, and keeps the samples and the promise; any other chunk changes nothing |
| Collector.Detection | web/collector.js:56-64 | in DETECT_RESPONSE the state advances exactly when "Invalid syntax." or a log-collector rate is present. Then the device is a firewall exactly when "Invalid syntax." occurs, even if a rate is also there, and the command follows the device type. Nothing is sent, and any other chunk changes nothing |
| Collector.SampleCollected | web/collector.js:80-93 | in SAMPLE_RESPONSE a matching chunk appends its capture and one progress report. The promise resolves exactly when the count reaches `samples` while still pending. Any other chunk changes nothing |
| Collector.RunFromStart | web/collector.js:21-110 | after any run from the start, a resolved session is sampling and holds at least `samples` rates. Every written line is a command line, and at most `samples` sampling commands were written |
| Collector.SamplingSession.constructor | web/collector.js:24-30 | a new session is in READY with nothing written, nothing chosen and the promise pending |
| Collector.SamplingSession.Send | web/collector.js:35-37 | `send` appends the command and a carriage return to the written lines |
| Collector.SamplingSession.OnData | web/collector.js:41-95 | the data handler performs exactly `SamplerStep` and keeps the invariant |
| Collector.SamplingSession.Prompted | web/collector.js:44-79 | the three prompt branches perform exactly `Prompt` |
| Collector.SamplingSession.Select | web/collector.js:56-64 | the device-type branch performs exactly `Classify` |
| Collector.SamplingSession.Record | web/collector.js:80-93 | the sampling branch performs exactly `Collect` |
| Collector.SamplingSession.OnTick | web/collector.js:74-79 | the interval callback performs exactly `SamplerTick` |
| Collector.SamplingSession.OnError | web/collector.js:97-99 | the error handler performs exactly `SamplerError` |
| Collector.EnumeratorStep | web/collector.js:125-153 | a chunk sets `setup` when it is set already or the chunk ends in a prompt. After setup nothing more is written, the session invariant holds, and a settled promise stays settled |
| Collector.EnumeratorError | web/collector.js:155-157 | an error rejects a pending promise and changes nothing else |
| Collector.EnumeratorRun | web/collector.js:112-164 | over any run, the invariant holds, setup is never undone, nothing is written after setup, and a settled promise stays settled |
| Collector.EnumeratorPriority | web/collector.js:133-152 | after setup, a pending session resolves with all address matches if there is one. Otherwise it rejects "empty" if "Connected" occurs, otherwise "device" if "Invalid syntax." occurs, and otherwise stays pending |
| Collector.EnumeratorSetup | web/collector.js:129-132 | before setup, a prompt chunk writes pager-off then the listing command and sets `setup`, and any other chunk changes nothing |
| Collector.EnumeratorRunFromStart | web/collector.js:112-164 | from the start, the written lines are nothing or exactly pager-off and the listing command. A success is a non-empty list of host tokens, and a refusal is "empty" or "device" |
| Collector.DeviceEnumerator.constructor | web/collector.js:115 | a new session has `setup` false, nothing written, and a pending promise |
| Collector.DeviceEnumerator.Send | web/collector.js:121-123 | `send` appends the command and a carriage return to the written lines |
| Collector.DeviceEnumerator.OnData | web/collector.js:125-153 | the data handler performs exactly `EnumeratorStep`, extracting addresses with the `exec` loop |
| Collector.DeviceEnumerator.OnError | web/collector.js:155-157 | the error handler performs exactly `EnumeratorError` |
| Patterns.ListEnds | web/index.js:9 | an accepted list is not empty and neither starts nor ends with whitespace or a comma |
| Patterns.ListPieceIff | web/index.js:9 | a comma piece is accepted exactly when it is a host token with whitespace around it, none before the first and none after the last |
| Index.Dedup | web/index.js:419-427 | the de-duplicated list has no repeats and holds exactly the elements of the input |
| Index.DedupOrder | web/index.js:419-427 | de-duplication keeps elements in the order of their first occurrence |
| Index.SplitHosts | web/index.js:416-428 | `null` exactly when the whole string fails `REGEX_ADDRESS`, otherwise the comma pieces without repeats in first-occurrence order |
| Index.Unique | web/index.js:419-427 | the `unique` loop builds the de-duplicated piece list |
| Index.AddressListPieces | web/index.js:8-9 | in an accepted list without whitespace, every returned piece is "localhost" or a dotted quad |
| Patterns.HostTokenHasNoComma | web/index.js:8 | an address is non-empty and holds no comma |
| Patterns.QuadChars | web/index.js:8 | a dotted-quad address is non-empty and made only of digits and dots |
| Patterns.HostTokenHasNoSpace | web/index.js:8 | an address holds no whitespace |
| Index.Trim | web/index.js:9 | trimming never lengthens a piece and leaves a piece without whitespace unchanged |
| Index.TrimAll | web/index.js:9 | trimming a list trims each piece in place |
| Index.SplitHostsTrimmed | web/index.js:416-428 | corrected `splitHosts`: the same validation, and each piece trimmed before repeats are dropped |
| Index.TrimmedHosts | web/index.js:8-9 | the corrected `splitHosts` returns distinct entries, each "localhost" or a dotted quad |
| Index.SplitHostsKeepsSpaces | web/index.js:416-428 | for any address `t`, `splitHosts("t, t")` as written returns `t` and `" t"`, which is not an address, and the corrected version returns `t` once |
| Index.AddAll | web/index.js:430-438 | adding pieces in turn keeps the existing entries as a prefix, keeps the list free of repeats, and yields exactly the old entries plus the pieces |
| Index.Refused | web/index.js:430-438 | every refused piece is one of the pieces, and every piece already listed is refused |
| Index.NothingRefused | web/index.js:430-438 | no piece is refused exactly when the pieces are distinct and none is already listed |
| Index.AddHostsMessage | web/index.js:439-447 | with non-empty pieces, `addHosts` returns "" exactly when every piece was newly added |
| Index.JoinRemaining | web/index.js:439-444 | the message loop joins the refused addresses with ", " |
| Index.RemoveAll | web/index.js:464-469 | removal leaves no entry equal to the address, removes every such entry and no other, and keeps the list free of repeats |
| Index.RemoveAllConcat | web/index.js:464-469 | removal keeps the order of the entries it keeps: removing from two parts of a list and joining them gives the same list |
| Index.EnteredValue | web/index.js:75-79 | the new field value ends with the CSV and has no whitespace before it. It is exactly the CSV when the old input is not kept or is only whitespace |
| Index.EnteredEntries | web/index.js:75-79 | the entries of the new field value are the old input's entries, when kept, followed by the CSV's entries |
| Index.DeviceName | web/index.js:238 | the device name is "firewall" exactly for a firewall, and is never empty or "mixed" |
| Index.TotalDevice | web/index.js:267 | the device column total is "" for no rows, the common device name when all rows agree, and "mixed" otherwise |
| Index.SkipEmpty | web/index.js:140-144 | after dropping leading empty entries, the list is empty or starts with a non-empty entry, and a list without empty entries is unchanged |
| Index.SkipEmptyDropsLeadingEmpties | web/index.js:140-144 | only a leading run of empty entries is dropped |
| Index.JoinCsv | web/index.js:140-144 | the import loop's CSV is the comma join of the addresses after their leading empty entries |
| Index.ImportedCsv | web/index.js:139-145 | the CSV built from a resolved device list splits back into exactly that list |
| Index.Form.HasHost | web/index.js:412-414 | `hasHost` is true exactly when some position of the host list holds that name |
| Index.Form.constructor | web/index.js:42-48 | after `setupParameters`, every parameter has a flag, true exactly when its input carries a default, and the host list is empty |
| Index.Form.AddHost | web/index.js:450-462 | `addHost` returns true exactly when the address was not listed, appends it only then, and keeps the list free of repeats |
| Index.Form.DeleteHost | web/index.js:464-469 | `deleteHost` removes every entry with that name and keeps the others in order |
| Index.Form.CheckParameters | web/index.js:51-58 | true exactly when no parameter's ready flag is false |
| Index.Form.Ready | web/index.js:479-485 | sets the flag of a known parameter to true and leaves unknown names and the other flags alone |
| Index.Form.Reject | web/index.js:471-477 | sets the flag of a known parameter to false, so `reject("address")` changes no flag |
| Index.Form.AddHosts | web/index.js:430-448 | the host list becomes the old list with the comma pieces added in turn. The result is the refused pieces, without repeats in first-occurrence order, joined by ", ". No ready flag changes |
| Index.Form.AddEach | web/index.js:432-438 | the `addHost` loop adds each piece in turn and collects each refused piece once |
| Index.Form.EnterCSV | web/index.js:75-79 | `enterCSV` sets the field to the value `EnteredValue` describes |

## Left out

- The SSH transport (`ssh2` client, `connect`, `shell`, stream close and end, `ssh.end()` after a result) is not modelled. It is a foreign library; the model keeps only the written lines and the promise's outcome.
- The `err` branches after `ssh.shell` (`web/collector.js:33`, `web/collector.js:119`) are left out: without a stream no chunk arrives. Their rejection is the same as the client error path that is modelled.
- `console.log` calls, DOM rendering, modals, progress bars, the `updateReady` button toggling and the `is-danger` classes are not modelled: they are output only.
- Real timers are not modelled. The 10-second interval is the `OnTick` method, called only while the interval is set.
- Collector.SamplingSession.OnData: `updateProgress` is a caller's callback. Its calls are counted in `progress` rather than executed.
- Index.Form.EnterCSV: the simulated Enter keypress that follows (`web/index.js:80`) is not modelled. It runs the form's key handler, which is event wiring outside this model.
- `importCSV`, `openCSV` and `saveCSV` are left out because they are file dialogs and file I/O.
- The float aggregation of results (averages, minimum, maximum, storage estimate, `toFixed`, table and CSV rows) is left out: it is floating-point formatting.
- `getParameters` and its `parseInt` are left out. `samples` is taken as an integer, so a `NaN` count is not modelled. A count below 1 is modelled: one sampling command goes out and the promise never resolves (`Collector.SamplingCommandCount`, `Collector.ResolvedSamples`).
- Collector.DeviceEnumerator.OnData: the `REGEX_IPV4_ADDRESS` object is shared between sessions through its `lastIndex`. The model starts every `test` at index 0, which is where every `exec` loop leaves it.
- Chunks are strings. The decoding of `Buffer` chunks is not modelled.
- jQuery selector quoting in `hasHost` and `deleteHost` is not modelled; an entry name holding a quote would break the selector.
- Index.TotalDevice: only the device column fold of the totals row is modelled.
- Everything in `main.js` (windows, menus) is left out because it is application wiring.

## Findings

| source | as written | input that shows it | evidently intended | confidence | as-written member | corrected member |
|---|---|---|---|---|---|---|
| web/index.js:416-428 | `splitHosts` validates with `REGEX_ADDRESS`, which allows whitespace around each comma. It then splits on "," without trimming, and line 102 passes it the raw field value | `"localhost, localhost"` passes and yields `["localhost", " localhost"]`: the same host twice, the second entry not an address | each piece trimmed before repeats are dropped, so the result is distinct addresses | medium, not executed | Index.SplitHostsKeepsSpaces | Index.SplitHostsTrimmed |
