/** The two routes of the service. Requests and responses are plain
    records; the probe's process outcome is an input, so each route is a
    function of the configuration, the request and that outcome. */
module Server {
  import opened Text
  import opened Wrappers
  import opened Auth
  import opened Probe
  import IPv4
  import ReceivedCount

  /** The content type a response gets when none is named. */
  const HtmlType := "text/html"
  const PlainType := "text/plain"

  const ChallengeHeader := "WWW-Authenticate"
  const Challenge := "Basic realm=\"Ping Server\""

  const MissingHostMessage := "Thiếu tham số 'host'"
  const InvalidIpMessage := "IP không hợp lệ"

  datatype Response = Response(status: nat, body: string, mimetype: string, headers: map<string, string>)

  /** The parts of a request the routes look at: the `host` query
      parameter and the Basic credentials, each possibly absent. */
  datatype Request = Request(host: Option<string>, credentials: Option<Credentials>)

  datatype Route = PingRoute | HealthRoute

  /** The refusal of the authentication gate, with its challenge. */
  function Unauthorized(): Response {
    Response(401, "Unauthorized", HtmlType, map[ChallengeHeader := Challenge])
  }

  /** `require_basic_auth` in front of a handler whose response would be
      `handled`. */
  function RequireBasicAuth(cfg: Config, credentials: Option<Credentials>, handled: Response): Response {
    if Authorized(cfg, credentials) then handled else Unauthorized()
  }

  /** The body of `ping`: strip the host, refuse a missing or malformed
      one, otherwise probe it and answer 200 or 500 with the probe's text. */
  function PingHandler(host: Option<string>, outcome: ProcessOutcome): (r: Response)
    ensures r.status == 200 || r.status == 400 || r.status == 500
    ensures r.status == 400 <==> !IPv4.WellFormed(Strip(host.GetOr("")))
  {
    var h := Strip(host.GetOr(""));
    IPv4.StrippedIsValidIp(host.GetOr(""));
    if |h| == 0 then
      assert !IPv4.WellFormed(h);
      Response(400, MissingHostMessage, HtmlType, map[])
    else if !IPv4.IsValidIp(h) then
      Response(400, InvalidIpMessage, HtmlType, map[])
    else
      var result := PingHost(h, outcome);
      Response(if result.success then 200 else 500, result.output, PlainType, map[])
  }

  /** `health`. */
  function HealthHandler(): Response {
    Response(200, "OK", HtmlType, map[])
  }

  /** Dispatch: `/ping` behind the gate, `/health` without it. */
  function Handle(cfg: Config, route: Route, request: Request, outcome: ProcessOutcome): Response {
    match route
    case PingRoute => RequireBasicAuth(cfg, request.credentials, PingHandler(request.host, outcome))
    case HealthRoute => HealthHandler()
  }

  // ------------------------------------------------------------ proofs

  /** The gate answers 401 with the challenge exactly when authentication
      is on and the credentials are missing or differ from the configured
      ones in user name or password, whatever the host and the probe;
      otherwise the response is the handler's. */
  lemma GateSpec(cfg: Config, request: Request, outcome: ProcessOutcome)
    ensures var r := Handle(cfg, PingRoute, request, outcome);
      var c := request.credentials;
      && (r.status == 401 <==>
        cfg.authEnabled && (c.None? || c.value.username != cfg.username || c.value.password != cfg.password))
      && (r.status == 401 ==> r == Unauthorized() && r.headers[ChallengeHeader] == Challenge)
      && (r.status != 401 ==> r == PingHandler(request.host, outcome))
  {
  }

  /** With authentication off, `/ping` answers as the bare handler does
      whatever credentials come with the request. */
  lemma AuthDisabledIgnoresCredentials(cfg: Config, host: Option<string>, c1: Option<Credentials>, c2: Option<Credentials>, outcome: ProcessOutcome)
    requires !cfg.authEnabled
    ensures Handle(cfg, PingRoute, Request(host, c1), outcome) == PingHandler(host, outcome)
    ensures Handle(cfg, PingRoute, Request(host, c1), outcome) == Handle(cfg, PingRoute, Request(host, c2), outcome)
  {
  }

  /** With authentication on, missing credentials, a wrong user name or a
      wrong password each give 401, before the host is looked at. */
  lemma WrongCredentialsRefused(cfg: Config, host: Option<string>, user: string, pass: string, outcome: ProcessOutcome)
    requires cfg.authEnabled
    ensures Handle(cfg, PingRoute, Request(host, None), outcome) == Unauthorized()
    ensures user != cfg.username ==>
      Handle(cfg, PingRoute, Request(host, Some(Credentials(user, cfg.password))), outcome) == Unauthorized()
    ensures pass != cfg.password ==>
      Handle(cfg, PingRoute, Request(host, Some(Credentials(cfg.username, pass))), outcome) == Unauthorized()
  {
  }

  /** An authorized request reaches the validation and the probe: a host
      empty after stripping gives 400 naming the missing parameter, a
      malformed one 400 naming the address, and a well-formed one the
      probe's text with 200 on success and 500 otherwise. */
  lemma PingSpec(cfg: Config, request: Request, outcome: ProcessOutcome)
    requires Authorized(cfg, request.credentials)
    ensures var h := Strip(request.host.GetOr(""));
      var r := Handle(cfg, PingRoute, request, outcome);
      && (|h| == 0 ==> r == Response(400, MissingHostMessage, HtmlType, map[]))
      && (|h| > 0 && !IPv4.WellFormed(h) ==> r == Response(400, InvalidIpMessage, HtmlType, map[]))
      && (IPv4.WellFormed(h) ==>
            r.body == PingHost(h, outcome).output && r.mimetype == PlainType
            && (r.status == 200 <==> PingHost(h, outcome).success)
            && (r.status == 500 <==> !PingHost(h, outcome).success))
  {
    IPv4.StrippedIsValidIp(request.host.GetOr(""));
  }

  /** The probe outcome matters only when the request is authorized and
      the host well formed: in every other case no probe is made. */
  lemma ProbeOnlyWhenValid(cfg: Config, request: Request, o1: ProcessOutcome, o2: ProcessOutcome)
    requires !Authorized(cfg, request.credentials) || !IPv4.WellFormed(Strip(request.host.GetOr("")))
    ensures Handle(cfg, PingRoute, request, o1) == Handle(cfg, PingRoute, request, o2)
  {
    IPv4.StrippedIsValidIp(request.host.GetOr(""));
  }

  /** When the utility exits normally, `/ping` answers with its output
      unchanged, 200 when it reports at least one reply and 500 when not. */
  lemma NormalExitResponse(cfg: Config, request: Request, output: string)
    requires Authorized(cfg, request.credentials)
    requires IPv4.WellFormed(Strip(request.host.GetOr("")))
    ensures var r := Handle(cfg, PingRoute, request, Exited(output));
      r.body == output
      && r.status == (if ReceivedCount.ParseReceived(output) >= MinSuccessPackets then 200 else 500)
  {
    PingSpec(cfg, request, Exited(output));
  }

  /** A probe that did not exit normally always gives 500. */
  lemma AbnormalExitResponse(cfg: Config, request: Request, outcome: ProcessOutcome)
    requires Authorized(cfg, request.credentials)
    requires IPv4.WellFormed(Strip(request.host.GetOr("")))
    requires !outcome.Exited?
    ensures Handle(cfg, PingRoute, request, outcome).status == 500
  {
    PingSpec(cfg, request, outcome);
  }

  /** `/health` answers 200 `OK` for every configuration and request,
      credentials or none. */
  lemma HealthAlwaysOk(cfg: Config, request: Request, outcome: ProcessOutcome)
    ensures Handle(cfg, HealthRoute, request, outcome) == Response(200, "OK", HtmlType, map[])
  {
  }

  /** End to end with authentication off: no host gives 400. */
  lemma MissingHostExample(cfg: Config)
    requires !cfg.authEnabled
    ensures Handle(cfg, PingRoute, Request(None, None), TimedOut).status == 400
  {
    assert Strip("") == "";
  }

  /** End to end with authentication off: an out-of-range address gives 400. */
  lemma InvalidHostExample(cfg: Config)
    requires !cfg.authEnabled
    ensures Handle(cfg, PingRoute, Request(Some("999.1.1.1"), None), TimedOut).status == 400
  {
    var request := Request(Some("999.1.1.1"), None);
    StripUnchanged("999.1.1.1");
    IPv4.OutOfRangeRejected();
    IPv4.StrippedIsValidIp("999.1.1.1");
    PingSpec(cfg, request, TimedOut);
  }

  /** A well-formed host that needs no stripping, probed with a normal
      exit, gets the utility's output with 200 or 500 by the reply count. */
  lemma ProbedResponse(cfg: Config, credentials: Option<Credentials>, host: string, output: string)
    requires Authorized(cfg, credentials) && IPv4.WellFormed(host) && Strip(host) == host
    ensures Handle(cfg, PingRoute, Request(Some(host), credentials), Exited(output))
      == Response(if ReceivedCount.ParseReceived(output) >= MinSuccessPackets then 200 else 500,
                  output, PlainType, map[])
  {
    IPv4.StrippedIsValidIp(host);
    assert IPv4.IsValidIp(host) && |host| > 0;
    var result := PingHost(host, Exited(output));
    assert result.output == output;
    assert result.success <==> ReceivedCount.ParseReceived(output) >= MinSuccessPackets;
    assert PingHandler(Some(host), Exited(output))
      == Response(if result.success then 200 else 500, result.output, PlainType, map[]);
  }

  /** A well-formed host probed on Linux: the summary line with `d`
      replies gives 200 unless `d` is `0`, and the body is the summary. */
  lemma LinuxSummaryResponse(cfg: Config, credentials: Option<Credentials>, host: string, d: char)
    requires Authorized(cfg, credentials) && IPv4.WellFormed(host) && Strip(host) == host
    requires IsDigit(d)
    ensures var summary := ReceivedCount.LinuxSummary(d);
      Handle(cfg, PingRoute, Request(Some(host), credentials), Exited(summary))
        == Response(if d == '0' then 500 else 200, summary, PlainType, map[])
  {
    var summary := ReceivedCount.LinuxSummary(d);
    ReceivedCount.LinuxSummaryCount(d);
    assert ReceivedCount.ParseReceived(summary) >= MinSuccessPackets <==> d != '0';
    ProbedResponse(cfg, credentials, host, summary);
  }

  /** A well-formed host probed where the summary reads `packets received`
      always gives 500, however many replies came back. */
  lemma BsdSummaryResponse(cfg: Config, credentials: Option<Credentials>, host: string, d: char)
    requires Authorized(cfg, credentials) && IPv4.WellFormed(host) && Strip(host) == host
    requires IsDigit(d)
    ensures var summary := ReceivedCount.BsdSummary(d);
      Handle(cfg, PingRoute, Request(Some(host), credentials), Exited(summary))
        == Response(500, summary, PlainType, map[])
  {
    ReceivedCount.BsdSummaryIsZero(d);
    ProbedResponse(cfg, credentials, host, ReceivedCount.BsdSummary(d));
  }

  /** End to end with authentication off: the resolver address answering
      both echo requests gives 200. */
  lemma ReachableExample(cfg: Config, host: string)
    requires !cfg.authEnabled && host == "8.8.8.8"
    ensures Handle(cfg, PingRoute, Request(Some(host), None), Exited(ReceivedCount.LinuxSummary('2'))).status == 200
  {
    StripUnchanged(host);
    IPv4.ResolverAccepted();
    IPv4.StrippedIsValidIp(host);
    LinuxSummaryResponse(cfg, None, host, '2');
  }

  /** End to end with authentication off: an address that never answers
      gives 500, both when the utility exits non-zero with its zero-reply
      summary (what iputils does) and when it exits normally with it. */
  lemma UnreachableExample(cfg: Config, host: string)
    requires !cfg.authEnabled && host == "10.255.255.1"
    ensures Handle(cfg, PingRoute, Request(Some(host), None), NonZeroExit(ReceivedCount.LinuxSummary('0'))).status == 500
    ensures Handle(cfg, PingRoute, Request(Some(host), None), Exited(ReceivedCount.LinuxSummary('0'))).status == 500
  {
    StripUnchanged(host);
    IPv4.MaxOctetAccepted();
    IPv4.StrippedIsValidIp(host);
    AbnormalExitResponse(cfg, Request(Some(host), None), NonZeroExit(ReceivedCount.LinuxSummary('0')));
    LinuxSummaryResponse(cfg, None, host, '0');
  }
}
