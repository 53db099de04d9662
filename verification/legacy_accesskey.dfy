/**
 * The gate of the plugin's first generation (`plgSystemAccesskey`). It has
 * the same early exits as the current gate, but takes the visitor's address
 * as the unfiltered `getenv` value of the first truthy variable (or "" when
 * there is none), compares it by plain membership with the trimmed
 * whitelist entries (no ranges), and on denial prints the configured message
 * without a default.
 */
module LegacyAccesskey {
  import opened PhpText
  import opened AddressText
  import IpHelper
  import opened LegacyIpHelper
  import opened Accesskey

  /** accesskey.php lines 43-55: the `if / else if` over the environment variables; ""
      when none is truthy. */
  function FirstTruthyValue(env: map<string, string>, names: seq<string>): (ip: string)
    ensures forall i :: IsFirstTruthy(env, names, i) ==> ip == IpHelper.ServerValue(env, names[i])
    ensures NoneTruthy(env, names) ==> ip == ""
    ensures ip == "" || !Falsy(ip)
    decreases |names|
  {
    if names == [] then ""
    else
      var v := IpHelper.ServerValue(env, names[0]);
      if !Falsy(v) then v
      else
        var rest := FirstTruthyValue(env, names[1..]);
        assert forall i :: IsFirstTruthy(env, names, i) ==> IsFirstTruthy(env, names[1..], i - 1) by {
          forall i | IsFirstTruthy(env, names, i)
            ensures IsFirstTruthy(env, names[1..], i - 1)
          {
            assert forall j :: 0 <= j < i - 1 ==> names[1..][j] == names[j + 1];
          }
        }
        assert NoneTruthy(env, names) ==> NoneTruthy(env, names[1..]) by {
          assert forall j :: 0 <= j < |names[1..]| ==> names[1..][j] == names[j + 1];
        }
        rest
  }

  /** The visitor address the legacy gate compares. */
  function VisitorIp(env: map<string, string>): (ip: string)
    ensures forall i :: IsFirstTruthy(env, LegacySources, i) ==> ip == IpHelper.ServerValue(env, LegacySources[i])
    ensures NoneTruthy(env, LegacySources) ==> ip == ""
  {
    FirstTruthyValue(env, LegacySources)
  }

  /** Reference reading of the legacy whitelist test: some comma-separated
      field of the setting, trimmed, is exactly the visitor's address. */
  ghost predicate ListedVerbatim(ip: string, setting: string) {
    exists j :: 0 <= j < |Explode(',', setting)| && Trim(Explode(',', setting)[j]) == ip
  }

  /** accesskey.php lines 71-88: "message" sends a 401 with the configured message as the
      whole body (nothing when it is unset); "redirect" goes to the
      configured URL or the site root; any other action falls through. */
  function HandleDenied(s: Settings, siteRoot: string): (r: Response)
    ensures s.failAction == "message" ==> r == Halt(401, "Unauthorized", s.message)
    ensures s.failAction == "redirect" ==>
      r == Redirect(if Falsy(s.redirectUrl) then siteRoot else s.redirectUrl)
    ensures s.failAction != "message" && s.failAction != "redirect" ==> r == Proceed
    ensures s.failAction != "message" ==> r == Accesskey.HandleAccessDenied(s, siteRoot)
  {
    if s.failAction == "message" then Halt(401, "Unauthorized", s.message)
    else if s.failAction == "redirect" then
      Redirect(if Falsy(s.redirectUrl) then siteRoot else s.redirectUrl)
    else Proceed
  }

  /** `plgSystemAccesskey::onAfterInitialise()` with the session flag. */
  function OnAfterInitialise(s: Settings, req: Request, authorized: bool): (out: Outcome)
    ensures out.authorized <==>
      authorized || (!Falsy(s.key) && req.isAdministrator
                     && (ListedVerbatim(VisitorIp(req.server), s.whitelist) || KeyInRequest(s, req)))
    ensures out.decision == AlreadyAuthorized <==> authorized
    ensures out.decision == NoKeyConfigured <==> !authorized && Falsy(s.key)
    ensures out.decision == NotAdministrator <==> !authorized && !Falsy(s.key) && !req.isAdministrator
    ensures out.decision.Whitelisted? <==>
      !authorized && !Falsy(s.key) && req.isAdministrator && ListedVerbatim(VisitorIp(req.server), s.whitelist)
    ensures out.decision.Whitelisted? ==> !out.decision.notice
    ensures out.decision == KeyProvided <==>
      !authorized && !Falsy(s.key) && req.isAdministrator
      && !ListedVerbatim(VisitorIp(req.server), s.whitelist) && KeyInRequest(s, req)
    ensures out.decision.Denied? <==> !out.authorized && !Falsy(s.key) && req.isAdministrator
    ensures out.decision.Denied? ==> out.decision.response == HandleDenied(s, req.siteRoot)
  {
    if authorized then Outcome(true, AlreadyAuthorized)
    else if Falsy(s.key) then Outcome(false, NoKeyConfigured)
    else if !req.isAdministrator then Outcome(false, NotAdministrator)
    else if VisitorIp(req.server) in WhitelistEntries(s.whitelist) then Outcome(true, Whitelisted(false))
    else if KeyInRequest(s, req) then Outcome(true, KeyProvided)
    else Outcome(false, Denied(HandleDenied(s, req.siteRoot)))
  }

  /** The gate reads the same variables in the same order as the legacy
      helper, and agrees with it whenever some variable is truthy; when none
      is, the gate uses "" where the helper returns REMOTE_ADDR's falsy
      value or "UNKNOWN". */
  lemma GateMatchesHelper(env: map<string, string>, fallbackToUnknown: bool)
    ensures !NoneTruthy(env, LegacySources) ==> VisitorIp(env) == LegacyIpHelper.GetVisitorIp(env, fallbackToUnknown)
    ensures NoneTruthy(env, LegacySources) ==> VisitorIp(env) == ""
  {
    if !NoneTruthy(env, LegacySources) {
      var i := FirstTruthyIndex(env, LegacySources);
    }
  }

  /** An empty whitelist setting splits into one blank entry, so a visitor
      whose address cannot be found at all (VisitorIp is "") is let in
      without the key. The current gate never admits an empty address. */
  lemma EmptyAddressFailsOpen(s: Settings, req: Request)
    requires !Falsy(s.key) && req.isAdministrator
    requires NoneTruthy(req.server, LegacySources)
    requires s.whitelist == ""
    ensures OnAfterInitialise(s, req, false) == Outcome(true, Whitelisted(false))
  {
    assert VisitorIp(req.server) == "";
    assert Explode(',', "") == [""];
    assert Trim(Explode(',', "")[0]) == "";
    assert ListedVerbatim("", "");
  }

  /** The same holds for any setting with a blank field, such as a trailing
      comma. */
  lemma BlankFieldAdmitsEmptyAddress(setting: string)
    requires exists j :: 0 <= j < |Explode(',', setting)| && AllTrimChars(Explode(',', setting)[j])
    ensures ListedVerbatim("", setting)
  {
    var j :| 0 <= j < |Explode(',', setting)| && AllTrimChars(Explode(',', setting)[j]);
  }

  /** Whitelist entries never contain a comma, so a proxy chain "a, b" taken
      verbatim from X-Forwarded-For is never listed. */
  lemma ProxyChainNeverListed(ip: string, setting: string)
    requires ',' in ip
    ensures !ListedVerbatim(ip, setting)
  {
    var parts := Explode(',', setting);
    forall j | 0 <= j < |parts|
      ensures Trim(parts[j]) != ip
    {
      TrimKeepsCommaFree(parts[j]);
    }
  }

  lemma TrimKeepsCommaFree(s: string)
    requires ',' !in s
    ensures ',' !in Trim(s)
  {
    var k := |s| - |TrimLeft(s)|;
    var t := Trim(s);
    forall i | 0 <= i < |t|
      ensures t[i] != ','
    {
      assert t[i] == s[k + i];
    }
  }

  /** Ranges are not understood: an address is listed only by an entry equal
      to it, so an entry containing `/` never lists an address without one. */
  lemma RangesNeverMatch(ip: string, setting: string)
    requires '/' !in ip
    requires forall j :: 0 <= j < |Explode(',', setting)| ==> '/' in Trim(Explode(',', setting)[j])
    ensures !ListedVerbatim(ip, setting)
  {
  }

  /** Where both gates see a valid address in CLIENT_IP and neither header
      the current gate reads before it (X-Forwarded-For, X-Real-IP) is set,
      the current gate whitelists every visitor the old one whitelisted. */
  lemma ExactEntriesStillAdmit(syn: AddressSyntax, s: Settings, req: Request)
    requires !Falsy(s.key) && req.isAdministrator
    requires "HTTP_X_FORWARDED_FOR" !in req.server && "HTTP_X_REAL_IP" !in req.server
    requires "HTTP_CLIENT_IP" in req.server
    requires syn.Valid() && syn.IsIp(req.server["HTTP_CLIENT_IP"])
    requires OnAfterInitialise(s, req, false).decision.Whitelisted?
    ensures Accesskey.OnAfterInitialise(syn, s, req, false).decision.Whitelisted?
  {
    var ip := req.server["HTTP_CLIENT_IP"];
    ValidAddressIsClean(syn, ip);
    assert IsFirstTruthy(req.server, LegacySources, 0);
    assert ListedVerbatim(ip, s.whitelist);
    IpHelper.ClientIpAfterUnsetForwarding(syn, req.server, false);
    VerbatimEntryAdmits(syn, ip, s.whitelist);
    assert Accesskey.WhitelistTest(syn, s, req);
  }

  /** An address listed verbatim is admitted by the current whitelist test
      too. */
  lemma VerbatimEntryAdmits(syn: AddressSyntax, ip: string, setting: string)
    requires !Falsy(ip) && ListedVerbatim(ip, setting)
    ensures IpHelper.IsIpInWhitelist(syn, ip, WhitelistEntries(setting))
  {
    var parts := Explode(',', setting);
    var j :| 0 <= j < |parts| && Trim(parts[j]) == ip;
    var entries := WhitelistEntries(setting);
    assert entries[j] == ip;
    TrimIdempotent(parts[j]);
    assert Trim(entries[j]) == ip;
    assert IpHelper.EntryAdmits(syn, ip, entries[j]);
    assert IpHelper.AnyEntryAdmits(syn, ip, entries);
  }
}
