/**
 * The IP helper of the plugin's first generation: the value of the first
 * truthy server variable, in a fixed order, with no validation and no
 * splitting of proxy chains. The server map holds the values as Joomla's
 * input hands them over; its default `cmd` filter (letters, digits, `_`, `.`
 * and `-` only) is not modelled, so the map stands for values that filter
 * leaves unchanged.
 */
module LegacyIpHelper {
  import opened PhpText
  import IpHelper

  /** The server variables consulted, in order. There is no X-Real-IP. */
  const LegacySources: seq<string> := [
    "HTTP_CLIENT_IP",
    "HTTP_X_FORWARDED_FOR",
    "HTTP_X_FORWARDED",
    "HTTP_FORWARDED_FOR",
    "HTTP_FORWARDED",
    "REMOTE_ADDR"
  ]

  /** The literal returned when nothing is found and a fallback is wanted. */
  const LegacyUnknown: string := "UNKNOWN"

  /** Source `i` is the first whose value is truthy. */
  ghost predicate IsFirstTruthy(server: map<string, string>, names: seq<string>, i: int) {
    && 0 <= i < |names|
    && !Falsy(IpHelper.ServerValue(server, names[i]))
    && forall j :: 0 <= j < i ==> Falsy(IpHelper.ServerValue(server, names[j]))
  }

  ghost predicate NoneTruthy(server: map<string, string>, names: seq<string>) {
    forall j :: 0 <= j < |names| ==> Falsy(IpHelper.ServerValue(server, names[j]))
  }

  /** The chain of `if (empty($ipaddress)) $ipaddress = get(next)` steps over
      `names`, starting from the value `ip` already read. */
  function Chain(server: map<string, string>, names: seq<string>, ip: string): string
    decreases |names|
  {
    if names == [] then ip
    else Chain(server, names[1..], if Falsy(ip) then IpHelper.ServerValue(server, names[0]) else ip)
  }

  /** What the chain yields: a truthy value already read is kept; otherwise
      the first truthy source wins; when none is truthy, the value read last
      (the last source's falsy value) remains. */
  lemma {:induction false} ChainResult(server: map<string, string>, names: seq<string>, ip: string)
    ensures !Falsy(ip) ==> Chain(server, names, ip) == ip
    ensures Falsy(ip) ==> forall i :: IsFirstTruthy(server, names, i) ==>
      Chain(server, names, ip) == IpHelper.ServerValue(server, names[i])
    ensures Falsy(ip) && NoneTruthy(server, names) ==>
      Chain(server, names, ip) == (if names == [] then ip else IpHelper.ServerValue(server, names[|names| - 1]))
    decreases |names|
  {
    if names != [] {
      var next := if Falsy(ip) then IpHelper.ServerValue(server, names[0]) else ip;
      ChainResult(server, names[1..], next);
      if Falsy(ip) {
        forall i | IsFirstTruthy(server, names, i)
          ensures Chain(server, names, ip) == IpHelper.ServerValue(server, names[i])
        {
          if i > 0 {
            assert IsFirstTruthy(server, names[1..], i - 1) by {
              forall j | 0 <= j < i - 1
                ensures Falsy(IpHelper.ServerValue(server, names[1..][j]))
              {
                assert names[1..][j] == names[j + 1];
              }
            }
          }
        }
        if NoneTruthy(server, names) {
          assert NoneTruthy(server, names[1..]) by {
            forall j | 0 <= j < |names[1..]|
              ensures Falsy(IpHelper.ServerValue(server, names[1..][j]))
            {
              assert names[1..][j] == names[j + 1];
            }
          }
        }
      }
    }
  }

  /** `AccessKeyIpHelper::getVisitorIp($fallbackToUnknown)`: the value of
      the first truthy source in `LegacySources`; when there is none,
      "UNKNOWN" with the fallback and otherwise REMOTE_ADDR's falsy value
      ("" or "0"). */
  function GetVisitorIp(server: map<string, string>, fallbackToUnknown: bool): (r: string)
    ensures forall i :: IsFirstTruthy(server, LegacySources, i) ==>
      r == IpHelper.ServerValue(server, LegacySources[i])
    ensures NoneTruthy(server, LegacySources) ==>
      r == (if fallbackToUnknown then LegacyUnknown else IpHelper.ServerValue(server, "REMOTE_ADDR"))
    ensures Falsy(r) ==> !fallbackToUnknown && NoneTruthy(server, LegacySources)
  {
    var first := IpHelper.ServerValue(server, LegacySources[0]);
    var ip := Chain(server, LegacySources[1..], first);
    ChainFromStart(server, LegacySources);
    if Falsy(ip) && fallbackToUnknown then LegacyUnknown else ip
  }

  /** Reading the first source and chaining over the rest is chaining over
      the whole list from nothing. */
  lemma ChainFromStart(server: map<string, string>, names: seq<string>)
    requires |names| > 0
    ensures Chain(server, names[1..], IpHelper.ServerValue(server, names[0])) == Chain(server, names, "")
    ensures forall i :: IsFirstTruthy(server, names, i) ==>
      Chain(server, names, "") == IpHelper.ServerValue(server, names[i])
    ensures NoneTruthy(server, names) ==>
      Chain(server, names, "") == IpHelper.ServerValue(server, names[|names| - 1])
    ensures Falsy(Chain(server, names, "")) ==> NoneTruthy(server, names)
  {
    ChainResult(server, names, "");
    if Falsy(Chain(server, names, "")) && !NoneTruthy(server, names) {
      var i := FirstTruthyIndex(server, names);
    }
  }

  /** When some source is truthy, one of them is the first. */
  lemma FirstTruthyIndex(server: map<string, string>, names: seq<string>) returns (i: nat)
    requires !NoneTruthy(server, names)
    ensures IsFirstTruthy(server, names, i)
  {
    i := 0;
    while Falsy(IpHelper.ServerValue(server, names[i]))
      invariant i < |names|
      invariant forall j :: 0 <= j < i ==> Falsy(IpHelper.ServerValue(server, names[j]))
      invariant exists k :: i <= k < |names| && !Falsy(IpHelper.ServerValue(server, names[k]))
      decreases |names| - i
    {
      i := i + 1;
    }
  }

  /** The legacy helper never looks at X-Real-IP. */
  lemma IgnoresRealIpHeader(server: map<string, string>, value: string, fallbackToUnknown: bool)
    ensures GetVisitorIp(server["HTTP_X_REAL_IP" := value], fallbackToUnknown) == GetVisitorIp(server, fallbackToUnknown)
  {
    var server' := server["HTTP_X_REAL_IP" := value];
    assert forall j :: 0 <= j < |LegacySources| ==>
      IpHelper.ServerValue(server', LegacySources[j]) == IpHelper.ServerValue(server, LegacySources[j]);
    UnreadNamesAreIrrelevant(server, server', LegacySources[1..], IpHelper.ServerValue(server, LegacySources[0]));
  }

  /** The chain depends only on the variables it reads. */
  lemma {:induction false} UnreadNamesAreIrrelevant(s1: map<string, string>, s2: map<string, string>, names: seq<string>, ip: string)
    requires forall j :: 0 <= j < |names| ==> IpHelper.ServerValue(s1, names[j]) == IpHelper.ServerValue(s2, names[j])
    ensures Chain(s1, names, ip) == Chain(s2, names, ip)
    decreases |names|
  {
    if names != [] {
      var next := if Falsy(ip) then IpHelper.ServerValue(s1, names[0]) else ip;
      assert forall j :: 0 <= j < |names[1..]| ==> names[1..][j] == names[j + 1];
      UnreadNamesAreIrrelevant(s1, s2, names[1..], next);
    }
  }

  /** A truthy but malformed value in an earlier source shadows a valid
      address in a later one: nothing is validated. */
  lemma EarlierGarbageWins(server: map<string, string>, fallbackToUnknown: bool)
    requires "HTTP_CLIENT_IP" in server && !Falsy(server["HTTP_CLIENT_IP"])
    ensures GetVisitorIp(server, fallbackToUnknown) == server["HTTP_CLIENT_IP"]
  {
    assert IsFirstTruthy(server, LegacySources, 0);
  }
}
