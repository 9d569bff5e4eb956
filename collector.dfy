/**
 * The two shell-session state machines of web/collector.js: `collect`, which
 * detects the device type and then samples its incoming log rate, and
 * `getConnectedDevices`, which lists the devices a log collector manages.
 *
 * Each session is a class whose methods are the stream's "data" handler and,
 * for `collect`, the interval callback. The effects on the SSH stream are the
 * log `sent` of written lines; the promise is the field `outcome`. Each class
 * has a value view (`Sampler`, `Enumerator`) and a pure step function on it;
 * the methods are proved to perform that step, and the session properties are
 * proved about the step functions and about runs of events.
 */
module Collector {
  import opened Wrappers
  import opened Strings
  import opened Patterns

  const CONNECTED_DEVICES_COMMAND: string := "show devices connected"
  const FIREWALL_COMMAND: string := "debug log-receiver statistics"
  const PANORAMA_COMMAND: string := "debug log-collector log-collection-stats show incoming-logs"
  const CLI_PAGER_COMMAND: string := "set cli pager off"

  /** What `send(cmd)` writes to the shell stream. */
  function Line(cmd: string): (r: string)
    ensures |r| == |cmd| + 1 && r[..|cmd|] == cmd && r[|cmd|] == '\r'
  {
    cmd + "\r"
  }

  predicate IsCommand(c: string) {
    c == CONNECTED_DEVICES_COMMAND || c == FIREWALL_COMMAND || c == PANORAMA_COMMAND || c == CLI_PAGER_COMMAND
  }

  /** A written line: one of the four commands followed by a carriage return. */
  ghost predicate IsCommandLine(x: string) {
    exists c :: IsCommand(c) && x == Line(c)
  }

  /** A written line ends in exactly one carriage return, after the command text. */
  lemma CommandLineShape(x: string)
    requires IsCommandLine(x)
    ensures |x| >= 2 && x[|x| - 1] == '\r' && x[|x| - 2] != '\r' && IsCommand(x[..|x| - 1])
  {
    var c :| IsCommand(c) && x == Line(c);
    assert x[..|x| - 1] == c;
  }

  /** STATE_READY .. STATE_SAMPLE_RESPONSE. */
  datatype State = Ready | DetectRequest | DetectResponse | SampleRequest | SampleResponse {
    function Code(): nat {
      match this
      case Ready => 0
      case DetectRequest => 1
      case DetectResponse => 2
      case SampleRequest => 3
      case SampleResponse => 4
    }
  }

  /** A rejection reason: the SSH client's error, or the strings "device" and "empty". */
  datatype Failure = TransportError | Refused(reason: string)

  /** The state of a session's promise. */
  datatype Outcome<T> = Pending | Resolved(value: T) | Rejected(failure: Failure)

  /** A promise settles once: later calls of `resolve` or `reject` have no effect. */
  function Settle<T>(o: Outcome<T>, next: Outcome<T>): (r: Outcome<T>)
    ensures !o.Pending? ==> r == o
    ensures o.Pending? ==> r == next
  {
    if o.Pending? then next else o
  }

  /** The first settlement wins: settling again leaves the outcome as it is. */
  lemma SettleOnce<T>(o: Outcome<T>, first: Outcome<T>, later: Outcome<T>)
    requires !first.Pending?
    ensures Settle(Settle(o, first), later) == Settle(o, first)
  {
  }

  function CommandFor(firewall: bool): string {
    if firewall then FIREWALL_COMMAND else PANORAMA_COMMAND
  }

  function PatternFor(firewall: bool): Pattern {
    if firewall then FirewallRate else PanoramaRate
  }

  /** `n` copies of `x`. */
  function Repeat(x: string, n: nat): (r: seq<string>)
    ensures |r| == n
  {
    if n == 0 then [] else Repeat(x, n - 1) + [x]
  }

  lemma {:induction false} RepeatAt(x: string, n: nat, k: nat)
    requires k < n
    ensures Repeat(x, n)[k] == x
  {
    if k < n - 1 {
      RepeatAt(x, n - 1, k);
    }
  }

  // ---------------------------------------------------------------- collect

  /**
   * The variables of one `collect` session. `result` is the array the
   * promise resolves with; `Resolved(firewall)` stands for the resolved
   * object `{samples: result, firewall}`, which holds that same array, so a
   * sample pushed later is visible through it. `progress` counts the calls
   * of `updateProgress`; `sample` and `armed` are the interval's counter and
   * whether it is still set.
   */
  datatype Sampler = Sampler(
    samples: int,
    state: State,
    firewall: Option<bool>,
    cmd: Option<string>,
    pattern: Option<Pattern>,
    result: seq<string>,
    progress: nat,
    sent: seq<string>,
    sample: int,
    armed: bool,
    outcome: Outcome<bool>)

  function StartSampler(samples: int): Sampler {
    Sampler(samples, Ready, None, None, None, [], 0, [], 0, false, Pending)
  }

  /** The lines written before sampling starts, by state. */
  function Prologue(state: State): seq<string> {
    match state
    case Ready => []
    case DetectRequest => [Line(CLI_PAGER_COMMAND)]
    case _ => [Line(CLI_PAGER_COMMAND), Line(PANORAMA_COMMAND)]
  }

  /** The collected target count has been reached (`result.length === samples` happened). */
  predicate Reached(v: Sampler) {
    1 <= v.samples <= |v.result|
  }

  /** What holds of every reachable `collect` session. */
  ghost predicate SamplerInv(v: Sampler) {
    // the device type is known from DETECT_RESPONSE on, and picks the command and the pattern
    && (v.firewall.Some? <==> v.state.Code() >= 3)
    && (v.firewall.Some? ==> v.cmd == Some(CommandFor(v.firewall.value)) && v.pattern == Some(PatternFor(v.firewall.value)))
    && (v.firewall.None? ==> v.cmd.None? && v.pattern.None?)
    // the written lines: pager off, the probe, then one sampling command per counted send
    && (v.state != SampleResponse ==> v.sent == Prologue(v.state) && v.sample == 0 && !v.armed && v.result == [])
    && (v.state == SampleResponse ==>
          v.cmd.Some? && 1 <= v.sample && v.sent == Prologue(v.state) + Repeat(Line(v.cmd.value), v.sample)
          && (v.sample <= v.samples || v.sample == 1)
          && (!v.armed ==> v.sample >= v.samples))
    // one progress report per sample, each sample taken by the selected pattern
    && v.progress == |v.result|
    && (v.result != [] ==> v.pattern.Some? && forall k :: 0 <= k < |v.result| ==> IsRateText(v.pattern.value, v.result[k]))
    // the promise resolves exactly when the count is reached, unless an error came first
    && (v.outcome.Resolved? ==> Reached(v) && v.firewall == Some(v.outcome.value))
    && (v.outcome.Pending? ==> !Reached(v))
    && (v.outcome.Rejected? ==> v.outcome.failure == TransportError)
  }

  lemma StartSamplerInv(samples: int)
    ensures SamplerInv(StartSampler(samples))
  {
  }

  /**
   * The "data" handler of `collect`: the guard of the current state is tested
   * and at most one branch runs.
   */
  function SamplerStep(v: Sampler, chunk: string): (w: Sampler)
    requires SamplerInv(v)
    ensures SamplerInv(w)
    ensures w.samples == v.samples
    ensures w.state == v.state || w.state.Code() == v.state.Code() + 1
    ensures w.sent == v.sent || exists c :: IsCommand(c) && w.sent == v.sent + [Line(c)]
    ensures |w.sent| >= |v.sent| && w.sent[..|v.sent|] == v.sent
    ensures v.firewall.Some? ==> w.firewall == v.firewall && w.cmd == v.cmd && w.pattern == v.pattern
    ensures !v.outcome.Pending? ==> w.outcome == v.outcome
  {
    if (v.state == Ready || v.state == DetectRequest || v.state == SampleRequest) && IsShellPrompt(chunk) then
      Prompt(v)
    else if v.state == DetectResponse && (Test(Literal(INVALID_SYNTAX), chunk) || Test(PanoramaRate, chunk)) then
      Classify(v, Test(Literal(INVALID_SYNTAX), chunk))
    else if v.state == SampleResponse && Test(v.pattern.value, chunk) then
      RateShape(v.pattern.value, chunk);
      Collect(v, Rate(v.pattern.value, chunk).value)
    else v
  }

  /**
   * A shell prompt in READY, DETECT_REQUEST or SAMPLE_REQUEST: the state's
   * command goes out and the next state is entered; entering SAMPLE_RESPONSE
   * counts the first sampling command and sets the interval.
   */
  function Prompt(v: Sampler): (w: Sampler)
    requires SamplerInv(v) && (v.state == Ready || v.state == DetectRequest || v.state == SampleRequest)
    ensures SamplerInv(w)
    ensures w.state.Code() == v.state.Code() + 1
    ensures exists c :: IsCommand(c) && w.sent == v.sent + [Line(c)]
    ensures w.samples == v.samples && w.firewall == v.firewall && w.cmd == v.cmd && w.pattern == v.pattern
    ensures w.outcome == v.outcome
  {
    if v.state == Ready then
      assert IsCommand(CLI_PAGER_COMMAND);
      v.(state := DetectRequest, sent := v.sent + [Line(CLI_PAGER_COMMAND)])
    else if v.state == DetectRequest then
      assert IsCommand(PANORAMA_COMMAND);
      v.(state := DetectResponse, sent := v.sent + [Line(PANORAMA_COMMAND)])
    else
      var w := v.(state := SampleResponse, sent := v.sent + [Line(v.cmd.value)], sample := 1, armed := true);
      assert w.sent == Prologue(w.state) + Repeat(Line(v.cmd.value), 1);
      assert IsCommand(v.cmd.value);
      w
  }

  /** DETECT_RESPONSE, once the device type is known: select its command and pattern. */
  function Classify(v: Sampler, firewall: bool): (w: Sampler)
    requires SamplerInv(v) && v.state == DetectResponse
    ensures SamplerInv(w)
    ensures w.state == SampleRequest && w.firewall == Some(firewall)
    ensures w.samples == v.samples && w.sent == v.sent && w.outcome == v.outcome
  {
    v.(state := SampleRequest, firewall := Some(firewall), cmd := Some(CommandFor(firewall)),
       pattern := Some(PatternFor(firewall)))
  }

  /** SAMPLE_RESPONSE with a rate taken: record it, report progress, resolve at the target count. */
  function Collect(v: Sampler, rate: string): (w: Sampler)
    requires SamplerInv(v) && v.state == SampleResponse && IsRateText(v.pattern.value, rate)
    ensures SamplerInv(w)
    ensures w.state == v.state && w.samples == v.samples && w.sent == v.sent
    ensures w.firewall == v.firewall && w.cmd == v.cmd && w.pattern == v.pattern
    ensures !v.outcome.Pending? ==> w.outcome == v.outcome
  {
    var result := v.result + [rate];
    v.(result := result, progress := v.progress + 1,
       outcome := if |result| == v.samples then Settle(v.outcome, Resolved(v.firewall.value)) else v.outcome)
  }

  /**
   * The interval callback: while fewer than `samples` commands went out it
   * sends one more and counts it, otherwise it clears the interval.
   */
  function SamplerTick(v: Sampler): (w: Sampler)
    requires SamplerInv(v) && v.armed
    ensures SamplerInv(w)
    ensures w.state == v.state && w.result == v.result && w.outcome == v.outcome && w.firewall == v.firewall
    ensures w.armed <==> v.sample < v.samples
    ensures w.sent == if v.sample < v.samples then v.sent + [Line(v.cmd.value)] else v.sent
  {
    if v.sample < v.samples then
      v.(sent := v.sent + [Line(v.cmd.value)], sample := v.sample + 1)
    else v.(armed := false)
  }

  /** The client's "error" event: `reject(err)`. Nothing else changes; the interval is not cleared. */
  function SamplerError(v: Sampler): (w: Sampler)
    requires SamplerInv(v)
    ensures SamplerInv(w)
    ensures w.outcome == if v.outcome.Pending? then Rejected(TransportError) else v.outcome
    ensures w.(outcome := v.outcome) == v
  {
    v.(outcome := Settle(v.outcome, Rejected(TransportError)))
  }

  /** What can happen to a session: a chunk of shell output, an interval tick, a client error. */
  datatype Event = Data(chunk: string) | Tick | Error

  /** One event. A tick only happens while the interval is set. */
  function SamplerEvent(v: Sampler, e: Event): (w: Sampler)
    requires SamplerInv(v)
    ensures SamplerInv(w)
    ensures w.samples == v.samples
    ensures w.state.Code() >= v.state.Code()
    ensures v.firewall.Some? ==> w.firewall == v.firewall && w.cmd == v.cmd && w.pattern == v.pattern
    ensures |w.sent| >= |v.sent| && w.sent[..|v.sent|] == v.sent
    ensures !v.outcome.Pending? ==> w.outcome == v.outcome
  {
    match e
    case Data(chunk) => SamplerStep(v, chunk)
    case Tick => if v.armed then SamplerTick(v) else v
    case Error => SamplerError(v)
  }

  /** A session after a run of events. */
  function SamplerRun(v: Sampler, events: seq<Event>): (w: Sampler)
    requires SamplerInv(v)
    ensures SamplerInv(w)
    ensures w.samples == v.samples
    ensures w.state.Code() >= v.state.Code()
    ensures v.firewall.Some? ==> w.firewall == v.firewall && w.cmd == v.cmd && w.pattern == v.pattern
    ensures |w.sent| >= |v.sent| && w.sent[..|v.sent|] == v.sent
    ensures !v.outcome.Pending? ==> w.outcome == v.outcome
    decreases |events|
  {
    if events == [] then v
    else
      var next := SamplerEvent(v, events[0]);
      var w := SamplerRun(next, events[1..]);
      assert w.sent[..|v.sent|] == w.sent[..|next.sent|][..|v.sent|];
      w
  }

  /** Every line a session writes is a command followed by a single carriage return. */
  lemma SamplerSendsCommandLines(v: Sampler)
    requires SamplerInv(v)
    ensures forall k :: 0 <= k < |v.sent| ==> IsCommandLine(v.sent[k])
  {
    assert IsCommand(CLI_PAGER_COMMAND) && IsCommand(PANORAMA_COMMAND);
    if v.state == SampleResponse {
      forall k | 0 <= k < |v.sent| ensures IsCommandLine(v.sent[k]) {
        if k >= 2 {
          RepeatAt(Line(v.cmd.value), v.sample, k - 2);
          assert IsCommand(v.cmd.value);
        }
      }
    }
  }

  /**
   * Sampling commands: at most `samples` (and one when `samples` < 1) are
   * ever sent, and exactly `samples` once the interval has cleared itself.
   */
  lemma SamplingCommandCount(v: Sampler)
    requires SamplerInv(v) && v.state == SampleResponse
    ensures |v.sent| - 2 <= if v.samples < 1 then 1 else v.samples
    ensures !v.armed && v.samples >= 1 ==> |v.sent| - 2 == v.samples
    ensures forall k :: 2 <= k < |v.sent| ==> v.sent[k] == Line(CommandFor(v.firewall.value))
  {
    forall k | 2 <= k < |v.sent| ensures v.sent[k] == Line(CommandFor(v.firewall.value)) {
      RepeatAt(Line(v.cmd.value), v.sample, k - 2);
    }
  }

  /** A resolved session holds at least `samples` rates, each taken by the pattern of its device type. */
  lemma ResolvedSamples(v: Sampler)
    requires SamplerInv(v) && v.outcome.Resolved?
    ensures |v.result| >= v.samples >= 1
    ensures forall k :: 0 <= k < |v.result| ==> IsRateText(PatternFor(v.outcome.value), v.result[k])
  {
  }

  /** In READY and DETECT_REQUEST only a prompt moves the session, sending pager-off or the probe. */
  lemma {:induction false} PromptStates(v: Sampler, chunk: string)
    requires SamplerInv(v) && (v.state == Ready || v.state == DetectRequest)
    ensures var w := SamplerStep(v, chunk);
      if IsShellPrompt(chunk) then
        w.state.Code() == v.state.Code() + 1
        && w.sent == v.sent + [Line(if v.state == Ready then CLI_PAGER_COMMAND else PANORAMA_COMMAND)]
        && w.(state := v.state, sent := v.sent) == v
      else w == v
  {
  }

  /**
   * SAMPLE_REQUEST: a prompt sends the first sampling command of the
   * detected device type, counts it and sets the interval; any other chunk
   * changes nothing.
   */
  lemma SampleRequestStep(v: Sampler, chunk: string)
    requires SamplerInv(v) && v.state == SampleRequest
    ensures var w := SamplerStep(v, chunk);
      if IsShellPrompt(chunk) then
        && w.state == SampleResponse
        && w.sent == v.sent + [Line(CommandFor(v.firewall.value))]
        && w.sample == 1 && w.armed
        && w.result == v.result && w.outcome == v.outcome
      else w == v
  {
  }

  /**
   * DETECT_RESPONSE: the session moves on exactly when "Invalid syntax." or a
   * log-collector rate is in the chunk, nothing is sent, and the device is a
   * firewall exactly when "Invalid syntax." is there, a rate in the same
   * chunk notwithstanding.
   */
  lemma Detection(v: Sampler, chunk: string)
    requires SamplerInv(v) && v.state == DetectResponse
    ensures var w := SamplerStep(v, chunk);
      && w.sent == v.sent
      && (w.state == SampleRequest <==> Test(Literal(INVALID_SYNTAX), chunk) || Rate(PanoramaRate, chunk).Some?)
      && (w.state == SampleRequest ==>
            && w.firewall == Some(exists i :: 0 <= i <= |chunk| && StartsAt(chunk, i, INVALID_SYNTAX))
            && w.cmd == Some(if w.firewall.value then FIREWALL_COMMAND else PANORAMA_COMMAND))
      && (w.state != SampleRequest ==> w == v)
  {
    ContainsIff(chunk, INVALID_SYNTAX);
  }

  /**
   * SAMPLE_RESPONSE: a chunk the selected pattern matches appends its rate
   * and one progress report; the promise resolves when the count becomes
   * `samples` and the promise was still pending.
   */
  lemma SampleCollected(v: Sampler, chunk: string)
    requires SamplerInv(v) && v.state == SampleResponse
    ensures var w := SamplerStep(v, chunk);
      && w.sent == v.sent
      && (Rate(v.pattern.value, chunk).Some? ==>
            && w.result == v.result + [Rate(v.pattern.value, chunk).value]
            && w.progress == v.progress + 1
            && (w.outcome.Resolved? <==> (v.outcome.Resolved? || (v.outcome.Pending? && |w.result| == v.samples))))
      && (Rate(v.pattern.value, chunk).None? ==> w == v)
  {
  }

  /** From the start, a session that resolved has written pager-off, the probe and then only sampling commands. */
  lemma {:induction false} RunFromStart(samples: int, events: seq<Event>)
    ensures var w := SamplerRun(StartSampler(samples), events);
      && (w.outcome.Resolved? ==> |w.result| >= samples >= 1 && w.state == SampleResponse)
      && (forall k :: 0 <= k < |w.sent| ==> IsCommandLine(w.sent[k]))
      && (w.state == SampleResponse ==> |w.sent| - 2 <= if samples < 1 then 1 else samples)
  {
    var w := SamplerRun(StartSampler(samples), events);
    SamplerSendsCommandLines(w);
    if w.state == SampleResponse {
      SamplingCommandCount(w);
    }
  }

  /** One `collect` session, from the shell's "ready" on. */
  class SamplingSession {
    const samples: int
    var state: State
    var firewall: Option<bool>
    var cmd: Option<string>
    var pattern: Option<Pattern>
    var result: seq<string>
    var progress: nat
    var sent: seq<string>
    var sample: int
    var armed: bool
    var outcome: Outcome<bool>

    ghost function View(): Sampler
      reads this
    {
      Sampler(samples, state, firewall, cmd, pattern, result, progress, sent, sample, armed, outcome)
    }

    ghost predicate Valid()
      reads this
    {
      SamplerInv(View())
    }

    constructor (samples: int)
      ensures Valid() && View() == StartSampler(samples)
    {
      this.samples := samples;
      state := Ready;
      firewall, cmd, pattern := None, None, None;
      result, progress, sent := [], 0, [];
      sample, armed := 0, false;
      outcome := Pending;
    }

    /** `send`: write the command and a carriage return. */
    method Send(command: string)
      modifies this`sent
      ensures sent == old(sent) + [Line(command)]
    {
      sent := sent + [Line(command)];
    }

    /** The stream's "data" handler. */
    method OnData(chunk: string)
      requires Valid()
      modifies this
      ensures View() == SamplerStep(old(View()), chunk)
      ensures Valid()
    {
      if (state == Ready || state == DetectRequest || state == SampleRequest) && IsShellPrompt(chunk) {
        Prompted();
      } else if state == DetectResponse && (Test(Literal(INVALID_SYNTAX), chunk) || Test(PanoramaRate, chunk)) {
        Select(Test(Literal(INVALID_SYNTAX), chunk));
      } else if state == SampleResponse && Test(pattern.value, chunk) {
        RateShape(pattern.value, chunk);
        Record(Rate(pattern.value, chunk).value);
      }
    }

    /** A shell prompt in READY, DETECT_REQUEST or SAMPLE_REQUEST. */
    method Prompted()
      requires Valid() && (state == Ready || state == DetectRequest || state == SampleRequest)
      modifies this
      ensures View() == Prompt(old(View()))
    {
      if state == Ready {
        state := DetectRequest;
        Send(CLI_PAGER_COMMAND);
      } else if state == DetectRequest {
        state := DetectResponse;
        Send(PANORAMA_COMMAND);
      } else {
        state := SampleResponse;
        Send(cmd.value);
        sample := 1;
        armed := true;
      }
    }

    /** DETECT_RESPONSE once the device type is known: select its command and pattern. */
    method Select(fw: bool)
      requires Valid() && state == DetectResponse
      modifies this
      ensures View() == Classify(old(View()), fw)
    {
      state := SampleRequest;
      firewall := Some(fw);
      cmd := Some(CommandFor(fw));
      pattern := Some(PatternFor(fw));
    }

    /** SAMPLE_RESPONSE with a rate taken: push it, report progress, resolve at the target count. */
    method Record(rate: string)
      requires Valid() && state == SampleResponse && IsRateText(pattern.value, rate)
      modifies this
      ensures View() == Collect(old(View()), rate)
    {
      result := result + [rate];
      progress := progress + 1;
      if |result| == samples && outcome.Pending? {
        outcome := Resolved(firewall.value);
      }
    }

    /** The interval callback; the timer only calls it while the interval is set. */
    method OnTick()
      requires Valid() && armed
      modifies this
      ensures Valid() && View() == SamplerTick(old(View()))
    {
      if sample < samples {
        Send(cmd.value);
        sample := sample + 1;
      } else {
        armed := false;
      }
    }

    /** The client's "error" handler. */
    method OnError()
      requires Valid()
      modifies this
      ensures Valid() && View() == SamplerError(old(View()))
    {
      if outcome.Pending? {
        outcome := Rejected(TransportError);
      }
    }
  }

  // ----------------------------------------------------- getConnectedDevices

  /** The variables of one `getConnectedDevices` session. */
  datatype Enumerator = Enumerator(setup: bool, sent: seq<string>, outcome: Outcome<seq<string>>)

  function StartEnumerator(): Enumerator {
    Enumerator(false, [], Pending)
  }

  const SETUP_LINES: seq<string> := [Line(CLI_PAGER_COMMAND), Line(CONNECTED_DEVICES_COMMAND)]

  /** What holds of every reachable `getConnectedDevices` session. */
  ghost predicate EnumeratorInv(v: Enumerator) {
    && v.sent == (if v.setup then SETUP_LINES else [])
    && (v.outcome.Resolved? ==>
          v.setup && v.outcome.value != [] && forall k :: 0 <= k < |v.outcome.value| ==> IsHostToken(v.outcome.value[k]))
    && (v.outcome.Rejected? && v.outcome.failure.Refused? ==>
          v.setup && (v.outcome.failure.reason == "empty" || v.outcome.failure.reason == "device"))
  }

  /** The "data" handler of `getConnectedDevices`. */
  function EnumeratorStep(v: Enumerator, chunk: string): (w: Enumerator)
    requires EnumeratorInv(v)
    ensures EnumeratorInv(w)
    ensures w.setup == (v.setup || IsShellPrompt(chunk))
    ensures v.setup ==> w.sent == v.sent
    ensures !v.outcome.Pending? ==> w.outcome == v.outcome
  {
    if !v.setup && IsShellPrompt(chunk) then
      v.(sent := v.sent + [Line(CLI_PAGER_COMMAND)] + [Line(CONNECTED_DEVICES_COMMAND)], setup := true)
    else if v.setup && Test(Address, chunk) then
      AllAddressesNonEmpty(chunk);
      AllAddressesAreHosts(chunk);
      v.(outcome := Settle(v.outcome, Resolved(AllAddresses(chunk))))
    else if v.setup && Test(Literal(CONNECTED_HEADER), chunk) then
      v.(outcome := Settle(v.outcome, Rejected(Refused("empty"))))
    else if v.setup && Test(Literal(INVALID_SYNTAX), chunk) then
      v.(outcome := Settle(v.outcome, Rejected(Refused("device"))))
    else v
  }

  function EnumeratorError(v: Enumerator): (w: Enumerator)
    requires EnumeratorInv(v)
    ensures EnumeratorInv(w)
    ensures w.outcome == if v.outcome.Pending? then Rejected(TransportError) else v.outcome
    ensures w.(outcome := v.outcome) == v
  {
    v.(outcome := Settle(v.outcome, Rejected(TransportError)))
  }

  /** A session after a run of chunks and client errors (ticks do not exist here). */
  function EnumeratorRun(v: Enumerator, events: seq<Event>): (w: Enumerator)
    requires EnumeratorInv(v)
    ensures EnumeratorInv(w)
    ensures v.setup ==> w.setup && w.sent == v.sent
    ensures !v.outcome.Pending? ==> w.outcome == v.outcome
    decreases |events|
  {
    if events == [] then v
    else
      var next :=
        match events[0]
        case Data(chunk) => EnumeratorStep(v, chunk)
        case Tick => v
        case Error => EnumeratorError(v);
      EnumeratorRun(next, events[1..])
  }

  /**
   * After setup, the first rule that applies decides: any address resolves
   * with all of them, else "Connected" rejects with "empty", else
   * "Invalid syntax." rejects with "device", else nothing happens.
   */
  lemma EnumeratorPriority(v: Enumerator, chunk: string)
    requires EnumeratorInv(v) && v.setup && v.outcome.Pending?
    ensures EnumeratorStep(v, chunk).outcome ==
      if AllAddresses(chunk) != [] then Resolved(AllAddresses(chunk))
      else if exists i :: 0 <= i <= |chunk| && StartsAt(chunk, i, CONNECTED_HEADER) then Rejected(Refused("empty"))
      else if exists i :: 0 <= i <= |chunk| && StartsAt(chunk, i, INVALID_SYNTAX) then Rejected(Refused("device"))
      else Pending
  {
    AllAddressesNonEmpty(chunk);
    ContainsIff(chunk, CONNECTED_HEADER);
    ContainsIff(chunk, INVALID_SYNTAX);
  }

  /** Before setup only a prompt has an effect: it sends pager-off, then the listing command. */
  lemma EnumeratorSetup(v: Enumerator, chunk: string)
    requires EnumeratorInv(v) && !v.setup
    ensures EnumeratorStep(v, chunk) ==
      if IsShellPrompt(chunk) then Enumerator(true, SETUP_LINES, v.outcome) else v
  {
  }

  /** From the start, nothing but pager-off and the listing command is ever written, and a success is a non-empty list of host tokens. */
  lemma {:induction false} EnumeratorRunFromStart(events: seq<Event>)
    ensures var w := EnumeratorRun(StartEnumerator(), events);
      && (w.sent == [] || w.sent == SETUP_LINES)
      && (w.outcome.Resolved? ==> w.outcome.value != [] && forall k :: 0 <= k < |w.outcome.value| ==> IsHostToken(w.outcome.value[k]))
      && (w.outcome.Rejected? && w.outcome.failure.Refused? ==>
            w.outcome.failure.reason == "empty" || w.outcome.failure.reason == "device")
  {
  }

  /** One `getConnectedDevices` session, from the shell's "ready" on. */
  class DeviceEnumerator {
    var setup: bool
    var sent: seq<string>
    var outcome: Outcome<seq<string>>

    ghost function View(): Enumerator
      reads this
    {
      Enumerator(setup, sent, outcome)
    }

    ghost predicate Valid()
      reads this
    {
      EnumeratorInv(View())
    }

    constructor ()
      ensures Valid() && View() == StartEnumerator()
    {
      setup, sent, outcome := false, [], Pending;
    }

    method Send(command: string)
      modifies this`sent
      ensures sent == old(sent) + [Line(command)]
    {
      sent := sent + [Line(command)];
    }

    /** The stream's "data" handler. */
    method OnData(chunk: string)
      requires Valid()
      modifies this
      ensures View() == EnumeratorStep(old(View()), chunk)
      ensures Valid()
    {
      if !setup && IsShellPrompt(chunk) {
        Send(CLI_PAGER_COMMAND);
        Send(CONNECTED_DEVICES_COMMAND);
        setup := true;
      } else if setup && Test(Address, chunk) {
        var result := ExtractAddresses(chunk);
        if outcome.Pending? {
          outcome := Resolved(result);
        }
      } else if setup && Test(Literal(CONNECTED_HEADER), chunk) {
        if outcome.Pending? {
          outcome := Rejected(Refused("empty"));
        }
      } else if setup && Test(Literal(INVALID_SYNTAX), chunk) {
        if outcome.Pending? {
          outcome := Rejected(Refused("device"));
        }
      }
    }

    /** The client's "error" handler. */
    method OnError()
      requires Valid()
      modifies this
      ensures Valid() && View() == EnumeratorError(old(View()))
    {
      if outcome.Pending? {
        outcome := Rejected(TransportError);
      }
    }
  }
}
