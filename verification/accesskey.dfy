/**
 * The current gate (`onAfterInitialise`): on every request to the
 * administrator area it lets the request through when the session is already
 * authorised, when the visitor's address is on the whitelist, or when the
 * configured key is present as a URL parameter, and otherwise applies the
 * configured failure action. The session's "authorised" flag is passed in and
 * returned; everything the framework does (sessions, logging, headers,
 * closing the application) is reduced to the values below.
 */
module Accesskey {
  import opened Wrappers
  import opened PhpText
  import opened AddressText
  import opened IpHelper
  import Exceptions

  /** The plugin parameters; an unset parameter reads as "". */
  datatype Settings = Settings(
    key: string,          // name of the URL parameter that unlocks the area
    whitelist: string,    // comma-separated addresses and ranges
    failAction: string,   // "message", "redirect", or anything else
    message: string,      // body shown with the 401
    redirectUrl: string)  // where "redirect" sends the visitor

  /** What the gate sees of one request. */
  datatype Request = Request(
    isAdministrator: bool,          // the administrator client is being served
    server: map<string, string>,    // server variables (the headers among them)
    query: map<string, string>,     // request parameters
    siteRoot: string)               // `Uri::root()`

  /** The response the gate leaves behind. */
  datatype Response =
    | Proceed                                             // nothing is emitted
    | Halt(status: int, reason: string, body: string)     // status line, echo, close
    | Redirect(url: string)

  /** Why the gate finished as it did. */
  datatype Decision =
    | AlreadyAuthorized
    | NoKeyConfigured
    | NotAdministrator
    | Whitelisted(notice: bool)   // notice: the whitelist message is queued
    | KeyProvided
    | Denied(response: Response)

  /** The session flag after the request, and the decision. */
  datatype Outcome = Outcome(authorized: bool, decision: Decision)

  // ---------------------------------------------------------------------------
  // getHttpStatusText
  // ---------------------------------------------------------------------------

  const StatusTexts: map<int, string> := map[
    401 := "Unauthorized",
    403 := "Forbidden",
    404 := "Not Found",
    500 := "Internal Server Error"]

  /** `getHttpStatusText($code)`: the reason phrase of the four codes the
      plugin uses, "Unknown Error" for any other. */
  function HttpStatusText(code: int): (text: string)
    ensures code == 401 ==> text == "Unauthorized"
    ensures code == 403 ==> text == "Forbidden"
    ensures code == 404 ==> text == "Not Found"
    ensures code == 500 ==> text == "Internal Server Error"
    ensures text == "Unknown Error" <==> code !in {401, 403, 404, 500}
  {
    if code in StatusTexts then StatusTexts[code] else "Unknown Error"
  }

  /** Every exception the plugin can raise gets its proper reason phrase,
      except `invalidIp`'s 400, which is outside the table. */
  lemma ExceptionStatusTexts()
    ensures HttpStatusText(Exceptions.Unauthorized().code) == "Unauthorized"
    ensures HttpStatusText(Exceptions.AccessDenied().code) == "Forbidden"
    ensures HttpStatusText(Exceptions.IpDetectionFailed().code) == "Internal Server Error"
    ensures HttpStatusText(Exceptions.ConfigurationError().code) == "Internal Server Error"
    ensures HttpStatusText(Exceptions.InvalidIp().code) == "Unknown Error"
  {
  }

  // ---------------------------------------------------------------------------
  // handleAccessDenied
  // ---------------------------------------------------------------------------

  const DefaultMessage: string := "Unauthorized access"

  /** `handleAccessDenied()`: "message" raises `unauthorized` with the
      configured message (or the default when it is falsy), which is turned
      into a 401 status with the message as body; "redirect" goes to the
      configured URL (or the site root when it is falsy); any other action
      emits nothing. */
  function HandleAccessDenied(s: Settings, siteRoot: string): (r: Response)
    ensures s.failAction == "message" ==>
      r == Halt(401, "Unauthorized", if Falsy(s.message) then DefaultMessage else s.message)
    ensures s.failAction == "redirect" ==>
      r == Redirect(if Falsy(s.redirectUrl) then siteRoot else s.redirectUrl)
    ensures s.failAction != "message" && s.failAction != "redirect" ==> r == Proceed
  {
    if s.failAction == "message" then
      var e := Exceptions.Unauthorized(if Falsy(s.message) then DefaultMessage else s.message);
      Halt(e.code, HttpStatusText(e.code), e.message)
    else if s.failAction == "redirect" then
      Redirect(if Falsy(s.redirectUrl) then siteRoot else s.redirectUrl)
    else Proceed
  }

  /** The message response never has an empty body: a falsy message is
      replaced by the default. */
  lemma DeniedMessageNeverBlank(s: Settings, siteRoot: string)
    requires s.failAction == "message"
    ensures HandleAccessDenied(s, siteRoot).Halt? && !Falsy(HandleAccessDenied(s, siteRoot).body)
  {
  }

  // ---------------------------------------------------------------------------
  // onAfterInitialise
  // ---------------------------------------------------------------------------

  /** `array_map('trim', explode(',', $whitelist))`. */
  function WhitelistEntries(setting: string): (entries: seq<string>)
    ensures |entries| == |Explode(',', setting)|
    ensures forall i :: 0 <= i < |entries| ==> entries[i] == Trim(Explode(',', setting)[i])
  {
    var parts := Explode(',', setting);
    seq(|parts|, i requires 0 <= i < |parts| => Trim(parts[i]))
  }

  /** `!is_null($input->get($key))`: the parameter named by the key is
      present, whatever its value. */
  predicate KeyInRequest(s: Settings, req: Request) {
    s.key in req.query
  }

  /** Reference reading of "the visitor is whitelisted": some source yields
      the visitor's address first, and some whitelist entry admits it. */
  ghost predicate VisitorWhitelisted(syn: AddressSyntax, s: Settings, req: Request) {
    exists i :: IsFirstUsable(syn, req.server, IpSources, i)
      && AnyEntryAdmits(syn, SourceCandidate(syn, req.server, IpSources[i]), WhitelistEntries(s.whitelist))
  }

  /** The whitelist test of src/Extension/Accesskey.php lines 85-106: an address that cannot be detected
      raises `ipDetectionFailed`, which is caught, so the visitor is simply
      not whitelisted. */
  function WhitelistTest(syn: AddressSyntax, s: Settings, req: Request): (r: bool)
    ensures r <==> VisitorWhitelisted(syn, s, req)
  {
    var ip := GetVisitorIp(syn, req.server, false);
    if ip.Failure? then false
    else
      var r := IsIpInWhitelist(syn, ip.value, WhitelistEntries(s.whitelist));
      assert r ==> VisitorWhitelisted(syn, s, req);
      r
  }

  /** `onAfterInitialise()` with the session flag `authorized`. The flag is
      set exactly when the request is admitted by the whitelist or the key;
      a denial leaves it unset; checks run in the order session, key
      configured, administrator client, whitelist, key present. */
  function OnAfterInitialise(syn: AddressSyntax, s: Settings, req: Request, authorized: bool): (out: Outcome)
    ensures out.authorized <==>
      authorized || (!Falsy(s.key) && req.isAdministrator && (VisitorWhitelisted(syn, s, req) || KeyInRequest(s, req)))
    ensures out.decision == AlreadyAuthorized <==> authorized
    ensures out.decision == NoKeyConfigured <==> !authorized && Falsy(s.key)
    ensures out.decision == NotAdministrator <==> !authorized && !Falsy(s.key) && !req.isAdministrator
    ensures out.decision.Whitelisted? <==>
      !authorized && !Falsy(s.key) && req.isAdministrator && VisitorWhitelisted(syn, s, req)
    ensures out.decision.Whitelisted? ==> (out.decision.notice <==> !KeyInRequest(s, req))
    ensures out.decision == KeyProvided <==>
      !authorized && !Falsy(s.key) && req.isAdministrator && !VisitorWhitelisted(syn, s, req) && KeyInRequest(s, req)
    ensures out.decision.Denied? ==> out.decision.response == HandleAccessDenied(s, req.siteRoot)
    ensures out.decision.Denied? <==>
      !out.authorized && !Falsy(s.key) && req.isAdministrator
  {
    if authorized then Outcome(true, AlreadyAuthorized)
    else if Falsy(s.key) then Outcome(false, NoKeyConfigured)
    else if !req.isAdministrator then Outcome(false, NotAdministrator)
    else if WhitelistTest(syn, s, req) then Outcome(true, Whitelisted(!KeyInRequest(s, req)))
    else if KeyInRequest(s, req) then Outcome(true, KeyProvided)
    else Outcome(false, Denied(HandleAccessDenied(s, req.siteRoot)))
  }

  /** Only the presence of the key parameter counts: an administrator
      request that carries it, with any value including "", is admitted. */
  lemma KeyValueIgnored(syn: AddressSyntax, s: Settings, req: Request, value: string)
    requires !Falsy(s.key) && req.isAdministrator
    ensures OnAfterInitialise(syn, s, req.(query := req.query[s.key := value]), false).authorized
  {
  }

  /** The gate never clears the flag: an authorised session stays authorised
      and passes every later request untouched. */
  lemma AuthorizationIsSticky(syn: AddressSyntax, s: Settings, req: Request)
    ensures OnAfterInitialise(syn, s, req, true) == Outcome(true, AlreadyAuthorized)
  {
  }

  /** Front-end requests are never gated, whatever the address or key. */
  lemma SiteRequestsPass(syn: AddressSyntax, s: Settings, req: Request)
    requires !req.isAdministrator
    ensures !OnAfterInitialise(syn, s, req, false).decision.Denied?
  {
  }

  /** Without a configured key the plugin does nothing, even for the
      administrator area. */
  lemma NoKeyMeansOpen(syn: AddressSyntax, s: Settings, req: Request)
    requires Falsy(s.key)
    ensures OnAfterInitialise(syn, s, req, false) == Outcome(false, NoKeyConfigured)
  {
  }

  /** An empty whitelist setting admits nobody: the one entry it splits into
      is blank and skipped. */
  lemma EmptyWhitelistAdmitsNobody(syn: AddressSyntax, s: Settings, req: Request)
    requires s.whitelist == ""
    ensures !VisitorWhitelisted(syn, s, req)
  {
    var entries := WhitelistEntries("");
    assert Explode(',', "") == [""];
    assert entries == [Trim("")];
    assert forall ip :: !AnyEntryAdmits(syn, ip, entries) by {
      forall ip ensures !AnyEntryAdmits(syn, ip, entries) {
        BlankEntriesNeverAdmit(syn, ip, entries[0]);
      }
    }
  }

  /** When no source yields an address, the whitelist cannot help: the key
      alone decides. */
  lemma UndetectedVisitorNeedsKey(syn: AddressSyntax, s: Settings, req: Request)
    requires !Falsy(s.key) && req.isAdministrator
    requires forall i :: 0 <= i < |IpSources| ==> Falsy(SourceCandidate(syn, req.server, IpSources[i]))
    ensures OnAfterInitialise(syn, s, req, false).authorized <==> KeyInRequest(s, req)
  {
    assert !WhitelistTest(syn, s, req);
  }

  /** A whitelisted administrator request that also carries the key is let
      through without the notice; without the key the notice is queued. */
  lemma WhitelistedVisitorNotice(syn: AddressSyntax, s: Settings, req: Request)
    requires !Falsy(s.key) && req.isAdministrator && VisitorWhitelisted(syn, s, req)
    ensures OnAfterInitialise(syn, s, req, false) == Outcome(true, Whitelisted(!KeyInRequest(s, req)))
  {
  }

  // ---------------------------------------------------------------------------
  // A session: the gate applied to a sequence of requests
  // ---------------------------------------------------------------------------

  /** The outcomes of a run of requests in one session, the flag carried
      from each request to the next. */
  function RunSession(syn: AddressSyntax, s: Settings, reqs: seq<Request>, authorized: bool): (outs: seq<Outcome>)
    ensures |outs| == |reqs|
    ensures |reqs| > 0 ==> outs[0] == OnAfterInitialise(syn, s, reqs[0], authorized)
    ensures forall i :: 0 < i < |outs| ==> outs[i] == OnAfterInitialise(syn, s, reqs[i], outs[i - 1].authorized)
    ensures forall i :: 0 <= i < |outs| ==> authorized ==> outs[i] == Outcome(true, AlreadyAuthorized)
    decreases |reqs|
  {
    if reqs == [] then []
    else
      var first := OnAfterInitialise(syn, s, reqs[0], authorized);
      var rest := RunSession(syn, s, reqs[1..], first.authorized);
      var outs := [first] + rest;
      assert forall i :: 1 < i < |outs| ==> outs[i] == OnAfterInitialise(syn, s, reqs[i], outs[i - 1].authorized) by {
        forall i | 1 < i < |outs|
          ensures outs[i] == OnAfterInitialise(syn, s, reqs[i], outs[i - 1].authorized)
        {
          assert outs[i] == rest[i - 1] && outs[i - 1] == rest[i - 2] && reqs[i] == reqs[1..][i - 1];
        }
      }
      outs
  }

  /** Once a request of the session is admitted, every later one is passed
      as already authorised. */
  lemma {:induction false} AdmissionLastsForSession(syn: AddressSyntax, s: Settings, reqs: seq<Request>, authorized: bool, i: nat, j: nat)
    requires i < j < |reqs|
    requires RunSession(syn, s, reqs, authorized)[i].authorized
    ensures RunSession(syn, s, reqs, authorized)[j] == Outcome(true, AlreadyAuthorized)
    decreases j - i
  {
    var outs := RunSession(syn, s, reqs, authorized);
    if j - 1 > i {
      AdmissionLastsForSession(syn, s, reqs, authorized, i, j - 1);
    }
    assert outs[j - 1].authorized;
    AuthorizationIsSticky(syn, s, reqs[j]);
  }
}
