/** The probe of `ping_host`: the ping utility's run is supplied as a
    `ProcessOutcome`, and every outcome is turned into a success flag and
    a text without ever failing. */
module Probe {
  import opened Text
  import opened ReceivedCount

  /** Echo requests sent per probe (`PING_COUNT`). */
  const PingCount := 2

  /** Replies needed for the probe to count as a success (`MIN_SUCCESS_PACKETS`). */
  const MinSuccessPackets := 1

  /** Seconds the utility may run before it is killed. */
  const TimeoutSeconds := 5

  /** How the run of the ping utility ended. */
  datatype ProcessOutcome =
    | Exited(output: string)       // exit status 0; standard output and error together
    | TimedOut                     // still running after `TimeoutSeconds`
    | NonZeroExit(output: string)  // non-zero exit status, with what it printed
    | OtherError(message: string)  // any other failure, e.g. no such program

  /** What `ping_host` returns: the success flag and the text for the caller. */
  datatype ProbeResult = ProbeResult(success: bool, output: string)

  /** The message prefixes of the three failures. The `5s` in the timeout
      message is `TimeoutSeconds`. */
  const TimeoutPrefix := "Ping timeout sau 5s cho "
  const FailurePrefix := "Ping thất bại: "
  const UnknownErrorPrefix := "Lỗi không xác định: "

  /** The argument list for the utility: the count flag of the platform,
      the number of echo requests, and the target last. */
  function PingCommand(isWindows: bool, ip: string): (cmd: seq<string>)
    ensures |cmd| == 4 && cmd[0] == "ping" && cmd[3] == ip
    ensures AllDigits(cmd[2]) && DigitsValue(cmd[2]) == PingCount
    ensures isWindows <==> cmd[1] == "-n"
    ensures !isWindows ==> cmd[1] == "-c"
  {
    assert "2"[..0] == [];
    ["ping", if isWindows then "-n" else "-c", "2", ip]
  }

  /** The success rule applied to a count of replies. */
  predicate Succeeded(received: nat) {
    received >= MinSuccessPackets
  }

  /** `ping_host` after the process has run. Only a normal exit can
      succeed, and then exactly when at least one reply was counted; the
      text is the utility's own output on a normal exit and a message
      carrying the target, the partial output or the error otherwise. */
  function PingHost(ip: string, outcome: ProcessOutcome): (r: ProbeResult)
    ensures r.success ==> outcome.Exited?
    ensures outcome.Exited? ==> r.output == outcome.output
    ensures outcome.Exited? ==> (r.success <==> ParseReceived(outcome.output) >= 1)
    ensures outcome.TimedOut? ==> Contains(r.output, ip)
    ensures outcome.NonZeroExit? ==> Contains(r.output, outcome.output)
    ensures outcome.OtherError? ==> Contains(r.output, outcome.message)
  {
    match outcome
    case Exited(out) =>
      ProbeResult(Succeeded(ParseReceived(out)), out)
    case TimedOut =>
      ContainsSuffix(TimeoutPrefix, ip);
      ProbeResult(false, TimeoutPrefix + ip)
    case NonZeroExit(out) =>
      ContainsSuffix(FailurePrefix, out);
      ProbeResult(false, FailurePrefix + out)
    case OtherError(msg) =>
      ContainsSuffix(UnknownErrorPrefix, msg);
      ProbeResult(false, UnknownErrorPrefix + msg)
  }

  /** A Linux summary with replies succeeds and one with none fails; the
      Windows summary with replies succeeds. */
  lemma SummaryOutcomes(ip: string)
    ensures PingHost(ip, Exited(LinuxSummary('2'))) == ProbeResult(true, LinuxSummary('2'))
    ensures PingHost(ip, Exited(LinuxSummary('0'))) == ProbeResult(false, LinuxSummary('0'))
    ensures PingHost(ip, Exited("Received = 2")).success
  {
    LinuxSummaryCount('2');
    LinuxSummaryCount('0');
    WindowsSummaryCount();
  }
}
