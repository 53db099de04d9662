/**
 * The current IP helper: CIDR containment on address texts, whitelist
 * evaluation, sanitisation of a header value, and the ordered scan of the
 * server variables that yields the visitor's address.
 */
module IpHelper {
  import opened Wrappers
  import opened PhpText
  import opened AddressText
  import opened Cidr
  import Exceptions

  // ---------------------------------------------------------------------------
  // isIpInCidrRange
  // ---------------------------------------------------------------------------

  /** The text after the first `/` of a range (requires one to be there). */
  function AfterSlash(cidr: string): string
    requires '/' in cidr
  {
    cidr[|FirstField('/', cidr)| + 1..]
  }

  /** Reference reading of "ip lies in the range written as cidr": the range
      has a subnet (text before the first `/`) that is a valid address and a
      numeric prefix (text up to the second `/`), both addresses convert to
      the same number of bytes, and their first `prefix` bits agree, the
      prefix clamped to the address width. */
  ghost predicate InCidrRange(syn: AddressSyntax, ip: string, cidr: string) {
    && !Falsy(ip)
    && '/' in cidr
    && var subnet := FirstField('/', cidr);
       var prefix := NumericValue(FirstField('/', AfterSlash(cidr)));
       var a := syn.pton(ip);
       var b := syn.pton(subnet);
       && syn.IsIp(subnet)
       && prefix.Some?
       && a.Some? && b.Some?
       && |a.value| == |b.value|
       && PrefixAgree(a.value, b.value, Clamp(prefix.value, 0, 8 * |a.value|))
  }

  /** The second `/`-separated field of a range. */
  lemma ExplodeSecond(cidr: string)
    requires '/' in cidr
    ensures |Explode('/', cidr)| >= 2
    ensures Explode('/', cidr)[0] == FirstField('/', cidr)
    ensures Explode('/', cidr)[1] == FirstField('/', AfterSlash(cidr))
  {
    ExplodeHead('/', AfterSlash(cidr));
  }

  /** `IpHelper::isIpInCidrRange($ip, $cidr)`: true exactly when the address
      lies in the range in the sense of `InCidrRange`. Empty inputs, a range
      without `/`, an invalid subnet, a non-numeric prefix, a failed
      conversion and a family mismatch all give false. */
  function IsIpInCidrRange(syn: AddressSyntax, ip: string, cidr: string): (r: bool)
    ensures Falsy(ip) || Falsy(cidr) || '/' !in cidr ==> !r
    ensures r <==> InCidrRange(syn, ip, cidr)
  {
    if Falsy(ip) || Falsy(cidr) then false
    else if '/' !in cidr then false
    else
      ExplodeSecond(cidr);
      var fields := Explode('/', cidr);
      var subnet := fields[0];
      var bits := fields[1];
      if !syn.IsIp(subnet) || NumericValue(bits).None? then false
      else
        var ipBinary := syn.pton(ip);
        var subnetBinary := syn.pton(subnet);
        if ipBinary.None? || subnetBinary.None? then false
        else if |ipBinary.value| != |subnetBinary.value| then false
        else
          PrefixMatchIsPrefixAgreement(ipBinary.value, subnetBinary.value, NumericValue(bits).value);
          PrefixMatch(ipBinary.value, subnetBinary.value, NumericValue(bits).value)
  }

  /** Only the first two `/`-separated fields are read: anything after a
      second `/` is ignored. */
  lemma CidrIgnoresExtraFields(syn: AddressSyntax, ip: string, subnet: string, bits: string, extra: string)
    requires '/' !in subnet && '/' !in bits
    ensures IsIpInCidrRange(syn, ip, subnet + "/" + bits + "/" + extra)
         == IsIpInCidrRange(syn, ip, subnet + "/" + bits)
  {
    var long, short := subnet + "/" + bits + "/" + extra, subnet + "/" + bits;
    assert long == subnet + ("/" + bits + "/" + extra) && short == subnet + ("/" + bits);
    assert long[|subnet|] == '/' && short[|subnet|] == '/';
    FirstFieldOfPrefixed('/', subnet, "/" + bits + "/" + extra);
    FirstFieldOfPrefixed('/', subnet, "/" + bits);
    assert FirstField('/', long) == subnet && FirstField('/', short) == subnet;
    assert AfterSlash(long) == bits + ("/" + extra) && AfterSlash(short) == bits + "";
    FirstFieldOfPrefixed('/', bits, "/" + extra);
    FirstFieldOfPrefixed('/', bits, "");
  }

  /** With a valid subnet of the visitor's family and a numeric prefix of zero
      or less, every address of that family is in range. */
  lemma NonPositivePrefixAdmitsFamily(syn: AddressSyntax, ip: string, subnet: string, bits: string)
    requires !Falsy(ip) && '/' !in subnet && '/' !in bits && syn.IsIp(subnet)
    requires NumericValue(bits).Some? && NumericValue(bits).value <= 0
    requires syn.pton(ip).Some? && syn.pton(subnet).Some?
    requires |syn.pton(ip).value| == |syn.pton(subnet).value|
    ensures IsIpInCidrRange(syn, ip, subnet + "/" + bits)
  {
    var cidr := subnet + "/" + bits;
    SplitRange(subnet, bits);
    var a, b := syn.pton(ip).value, syn.pton(subnet).value;
    assert Clamp(NumericValue(bits).value, 0, 8 * |a|) == 0;
    assert AddressBits(a)[..0] == AddressBits(b)[..0];
    assert PrefixAgree(a, b, 0);
    assert InCidrRange(syn, ip, cidr);
  }

  /** A range written `subnet/bits` splits back into its two fields. */
  lemma SplitRange(subnet: string, bits: string)
    requires '/' !in subnet && '/' !in bits
    ensures '/' in subnet + "/" + bits
    ensures FirstField('/', subnet + "/" + bits) == subnet
    ensures FirstField('/', AfterSlash(subnet + "/" + bits)) == bits
  {
    var cidr := subnet + "/" + bits;
    assert cidr[|subnet|] == '/';
    assert cidr == subnet + ("/" + bits);
    FirstFieldOfPrefixed('/', subnet, "/" + bits);
    assert FirstField('/', "/" + bits) == "";
    assert subnet + "" == subnet;
    assert AfterSlash(cidr) == bits;
    FirstFieldOfPrefixed('/', bits, "");
    assert bits + "" == bits;
  }

  // ---------------------------------------------------------------------------
  // isIpInWhitelist
  // ---------------------------------------------------------------------------

  /** One whitelist entry admits the address: after trimming it is truthy and
      either is the address itself or contains `/` and is a range holding it. */
  ghost predicate EntryAdmits(syn: AddressSyntax, ip: string, entry: string) {
    var e := Trim(entry);
    !Falsy(e) && (ip == e || ('/' in e && InCidrRange(syn, ip, e)))
  }

  /** Some entry of the list admits the address. */
  ghost predicate AnyEntryAdmits(syn: AddressSyntax, ip: string, whitelist: seq<string>) {
    exists i :: 0 <= i < |whitelist| && EntryAdmits(syn, ip, whitelist[i])
  }

  /** An entry admits from a non-empty list iff the head or the tail does. */
  lemma AnyEntryAdmitsCons(syn: AddressSyntax, ip: string, whitelist: seq<string>)
    requires |whitelist| > 0
    ensures AnyEntryAdmits(syn, ip, whitelist)
        <==> EntryAdmits(syn, ip, whitelist[0]) || AnyEntryAdmits(syn, ip, whitelist[1..])
  {
    if AnyEntryAdmits(syn, ip, whitelist[1..]) {
      var i :| 0 <= i < |whitelist[1..]| && EntryAdmits(syn, ip, whitelist[1..][i]);
      assert EntryAdmits(syn, ip, whitelist[i + 1]);
    }
    if AnyEntryAdmits(syn, ip, whitelist) && !EntryAdmits(syn, ip, whitelist[0]) {
      var i :| 0 <= i < |whitelist| && EntryAdmits(syn, ip, whitelist[i]);
      assert whitelist[1..][i - 1] == whitelist[i];
    }
  }

  /** The scan of src/Helper/IpHelper.php lines 106-125: the first entry that matches ends it with
      true. */
  function ScanEntries(syn: AddressSyntax, ip: string, whitelist: seq<string>): (r: bool)
    ensures r <==> AnyEntryAdmits(syn, ip, whitelist)
  {
    if |whitelist| == 0 then false
    else
      var entry := Trim(whitelist[0]);
      AnyEntryAdmitsCons(syn, ip, whitelist);
      if !Falsy(entry) && ip == entry then true
      else if !Falsy(entry) && '/' in entry && IsIpInCidrRange(syn, ip, entry) then true
      else ScanEntries(syn, ip, whitelist[1..])
  }

  /** `IpHelper::isIpInWhitelist($ip, $whitelist)`: false for a falsy address
      or an empty list; otherwise true exactly when some entry admits it. */
  function IsIpInWhitelist(syn: AddressSyntax, ip: string, whitelist: seq<string>): (r: bool)
    ensures r <==> !Falsy(ip) && AnyEntryAdmits(syn, ip, whitelist)
  {
    if Falsy(ip) || |whitelist| == 0 then false
    else ScanEntries(syn, ip, whitelist)
  }

  /** The order of the entries does not matter: any rearrangement of the list
      gives the same answer. */
  lemma WhitelistOrderIrrelevant(syn: AddressSyntax, ip: string, w1: seq<string>, w2: seq<string>)
    requires multiset(w1) == multiset(w2)
    ensures IsIpInWhitelist(syn, ip, w1) == IsIpInWhitelist(syn, ip, w2)
  {
    if IsIpInWhitelist(syn, ip, w1) {
      var i :| 0 <= i < |w1| && EntryAdmits(syn, ip, w1[i]);
      assert w1[i] in multiset(w2);
      var j :| 0 <= j < |w2| && w2[j] == w1[i];
    }
    if IsIpInWhitelist(syn, ip, w2) {
      var j :| 0 <= j < |w2| && EntryAdmits(syn, ip, w2[j]);
      assert w2[j] in multiset(w1);
      var i :| 0 <= i < |w1| && w1[i] == w2[j];
    }
  }

  /** Entries that trim to a falsy string are skipped: they never admit. */
  lemma BlankEntriesNeverAdmit(syn: AddressSyntax, ip: string, entry: string)
    requires Falsy(Trim(entry))
    ensures !EntryAdmits(syn, ip, entry)
  {
  }

  // ---------------------------------------------------------------------------
  // sanitizeIp
  // ---------------------------------------------------------------------------

  /** Trimming, then trimming the first comma field when there is a comma, is
      the same as trimming the first comma field of the raw text. */
  lemma TrimmedFirstHop(s: string)
    ensures (var t := Trim(s); if ',' in t then Trim(FirstField(',', t)) else t)
         == Trim(FirstField(',', s))
  {
    var t := Trim(s);
    var k := |s| - |TrimLeft(s)|;
    var left, right := s[..k], s[k + |t|..];
    TrimPaddingHasNoComma(left);
    TrimPaddingHasNoComma(right);
    assert s == left + (t + right);
    if ',' in t {
      FirstFieldOfPrefixed(',', left, t + right);
      FirstFieldOfAppended(',', t, right);
      TrimSkipsPadding(left, FirstField(',', t));
    } else {
      NoCommaInConcat(left, t, right);
    }
  }

  lemma TrimPaddingHasNoComma(x: string)
    requires AllTrimChars(x)
    ensures ',' !in x
  {
  }

  lemma NoCommaInConcat(a: string, b: string, c: string)
    requires ',' !in a && ',' !in b && ',' !in c
    ensures ',' !in a + (b + c)
  {
    forall i | 0 <= i < |a + (b + c)|
      ensures (a + (b + c))[i] != ','
    {
      if i >= |a| + |b| {
        assert (a + (b + c))[i] == c[i - |a| - |b|];
      }
    }
  }

  /** `IpHelper::sanitizeIp($ip)`: the trimmed first comma-separated element
      if it is a valid IPv4 or IPv6 address, otherwise "". */
  function SanitizeIp(syn: AddressSyntax, ip: string): (r: string)
    ensures r == "" || syn.IsIp(r)
    ensures var hop := Trim(FirstField(',', ip));
      r == (if syn.IsIp(hop) then hop else "")
  {
    var t := Trim(ip);
    // explode(',', $ip)[0] is the first field (ExplodeHead)
    var first := if ',' in t then Trim(FirstField(',', t)) else t;
    TrimmedFirstHop(ip);
    // filter_var returns the address itself, which is never falsy
    if syn.isIpv4(first) then first
    else if syn.isIpv6(first) then first
    else ""
  }

  /** Only the first element of a comma list is considered: whatever follows
      the first comma, valid or not, never changes the result. */
  lemma SanitizeIgnoresLaterHops(syn: AddressSyntax, first: string, rest: string)
    requires ',' !in first
    ensures SanitizeIp(syn, first + "," + rest) == SanitizeIp(syn, first)
  {
    FirstFieldOfPrefixed(',', first, "," + rest);
    assert first + "," + rest == first + ("," + rest);
    assert FirstField(',', "," + rest) == "";
    assert first + "" == first;
  }

  /** Sanitising an already sanitised value changes nothing. */
  lemma SanitizeIdempotent(syn: AddressSyntax, ip: string)
    requires syn.Valid()
    ensures SanitizeIp(syn, SanitizeIp(syn, ip)) == SanitizeIp(syn, ip)
  {
    var r := SanitizeIp(syn, ip);
    if r != "" {
      ValidAddressIsClean(syn, r);
    }
  }

  // ---------------------------------------------------------------------------
  // getVisitorIp
  // ---------------------------------------------------------------------------

  /** The server variables consulted, most trusted last. */
  const IpSources: seq<string> := [
    "HTTP_X_FORWARDED_FOR",
    "HTTP_X_REAL_IP",
    "HTTP_CLIENT_IP",
    "HTTP_X_FORWARDED",
    "HTTP_FORWARDED_FOR",
    "HTTP_FORWARDED",
    "REMOTE_ADDR"
  ]

  /** The literal returned when detection fails and a fallback is wanted. */
  const UnknownIp: string := "Unknown"

  /** The message of the exception raised when detection fails. */
  const DetectionFailedMessage: string := "Unable to detect visitor IP address from any source"

  /** A server variable as read with default '' (missing means ""). */
  function ServerValue(server: map<string, string>, name: string): string {
    if name in server then server[name] else ""
  }

  /** What one source offers: its sanitised value, or "" when it is unset or
      falsy (src/Helper/IpHelper.php lines 186-188). */
  function SourceCandidate(syn: AddressSyntax, server: map<string, string>, name: string): (c: string)
    ensures c == "" || syn.IsIp(c)
  {
    var raw := ServerValue(server, name);
    if Falsy(raw) then "" else SanitizeIp(syn, raw)
  }

  /** Source `i` is the first whose candidate is truthy. */
  ghost predicate IsFirstUsable(syn: AddressSyntax, server: map<string, string>, names: seq<string>, i: int) {
    && 0 <= i < |names|
    && !Falsy(SourceCandidate(syn, server, names[i]))
    && forall j :: 0 <= j < i ==> Falsy(SourceCandidate(syn, server, names[j]))
  }

  /** The loop of src/Helper/IpHelper.php lines 185-194: the candidate of the first usable source,
      or None when no source is usable. */
  function FirstUsable(syn: AddressSyntax, server: map<string, string>, names: seq<string>): (r: Option<string>)
    ensures r.None? <==> forall i :: 0 <= i < |names| ==> Falsy(SourceCandidate(syn, server, names[i]))
    ensures forall i :: IsFirstUsable(syn, server, names, i) ==> r == Some(SourceCandidate(syn, server, names[i]))
    ensures r.Some? ==> exists i :: IsFirstUsable(syn, server, names, i) && r.value == SourceCandidate(syn, server, names[i])
    ensures r.Some? ==> syn.IsIp(r.value)
  {
    if |names| == 0 then None
    else
      var c := SourceCandidate(syn, server, names[0]);
      if !Falsy(c) then
        assert IsFirstUsable(syn, server, names, 0);
        Some(c)
      else
        var rest := FirstUsable(syn, server, names[1..]);
        FirstUsableShift(syn, server, names);
        rest
  }

  /** When the first source is unusable, the scan of the list is the scan of
      its tail, index for index. */
  lemma FirstUsableShift(syn: AddressSyntax, server: map<string, string>, names: seq<string>)
    requires |names| > 0 && Falsy(SourceCandidate(syn, server, names[0]))
    ensures forall i :: IsFirstUsable(syn, server, names, i) ==> i > 0 && IsFirstUsable(syn, server, names[1..], i - 1)
    ensures forall i :: IsFirstUsable(syn, server, names[1..], i) ==> IsFirstUsable(syn, server, names, i + 1)
    ensures (forall i :: 0 <= i < |names| ==> Falsy(SourceCandidate(syn, server, names[i])))
        <==> (forall i :: 0 <= i < |names[1..]| ==> Falsy(SourceCandidate(syn, server, names[1..][i])))
  {
    forall i | IsFirstUsable(syn, server, names, i)
      ensures i > 0 && IsFirstUsable(syn, server, names[1..], i - 1)
    {
      forall j | 0 <= j < i - 1
        ensures Falsy(SourceCandidate(syn, server, names[1..][j]))
      {
        assert names[1..][j] == names[j + 1];
      }
    }
    forall i | IsFirstUsable(syn, server, names[1..], i)
      ensures IsFirstUsable(syn, server, names, i + 1)
    {
      forall j | 0 <= j < i + 1
        ensures Falsy(SourceCandidate(syn, server, names[j]))
      {
        if j > 0 { assert names[j] == names[1..][j - 1]; }
      }
    }
    if forall i :: 0 <= i < |names[1..]| ==> Falsy(SourceCandidate(syn, server, names[1..][i])) {
      forall i | 0 <= i < |names|
        ensures Falsy(SourceCandidate(syn, server, names[i]))
      {
        if i > 0 { assert names[i] == names[1..][i - 1]; }
      }
    }
  }

  /** `IpHelper::getVisitorIp($fallbackToUnknown)` over the list of server
      variables `names` (the plugin passes `IpSources`): the sanitised value
      of the first source that yields one; otherwise "Unknown" when a
      fallback is requested, else the `ipDetectionFailed` exception.
      Whatever it returns besides "Unknown" is a valid address. */
  function DetectIp(syn: AddressSyntax, server: map<string, string>, names: seq<string>, fallbackToUnknown: bool)
    : (r: Result<string, Exceptions.AccessKeyException>)
    ensures forall i :: IsFirstUsable(syn, server, names, i) ==>
      r == Success(SourceCandidate(syn, server, names[i]))
    ensures (forall i :: 0 <= i < |names| ==> Falsy(SourceCandidate(syn, server, names[i]))) ==>
      r == (if fallbackToUnknown then Success(UnknownIp)
            else Failure(Exceptions.AccessKeyException(DetectionFailedMessage, 500)))
    ensures r.Success? ==> syn.IsIp(r.value) || (fallbackToUnknown && r.value == UnknownIp)
  {
    match FirstUsable(syn, server, names)
    case Some(ip) => Success(ip)
    case None =>
      if fallbackToUnknown then Success(UnknownIp)
      else Failure(Exceptions.IpDetectionFailed(DetectionFailedMessage))
  }

  /** The plugin's visitor address: the scan over `IpSources`. */
  function GetVisitorIp(syn: AddressSyntax, server: map<string, string>, fallbackToUnknown: bool)
    : (r: Result<string, Exceptions.AccessKeyException>)
    ensures forall i :: IsFirstUsable(syn, server, IpSources, i) ==>
      r == Success(SourceCandidate(syn, server, IpSources[i]))
    ensures (forall i :: 0 <= i < |IpSources| ==> Falsy(SourceCandidate(syn, server, IpSources[i]))) ==>
      r == (if fallbackToUnknown then Success(UnknownIp)
            else Failure(Exceptions.AccessKeyException(DetectionFailedMessage, 500)))
  {
    DetectIp(syn, server, IpSources, fallbackToUnknown)
  }

  /** A usable X-Forwarded-For header wins over every other source, and of a
      proxy chain "client, proxy1, ..." only the first hop is taken. */
  lemma ForwardedForFirstHopWins(syn: AddressSyntax, server: map<string, string>, client: string, rest: string, fallbackToUnknown: bool)
    requires syn.Valid() && syn.IsIp(client)
    requires "HTTP_X_FORWARDED_FOR" in server && server["HTTP_X_FORWARDED_FOR"] == client + "," + rest
    ensures GetVisitorIp(syn, server, fallbackToUnknown) == Success(client)
  {
    FirstHopOfChain(syn, client, rest);
    ValidAddressIsClean(syn, client);
    ForwardedForYields(syn, server, client, fallbackToUnknown);
  }

  /** A chain starting with a valid address is truthy and sanitises to that
      address. */
  lemma FirstHopOfChain(syn: AddressSyntax, client: string, rest: string)
    requires syn.Valid() && syn.IsIp(client)
    ensures !Falsy(client + "," + rest)
    ensures SanitizeIp(syn, client + "," + rest) == client
  {
    ChainSanitisesToFirstHop(syn, client, rest);
  }

  lemma ChainSanitisesToFirstHop(syn: AddressSyntax, client: string, rest: string)
    requires syn.Valid() && syn.IsIp(client)
    ensures SanitizeIp(syn, client + "," + rest) == client
  {
    ValidAddressIsClean(syn, client);
    SanitizeKeepsAddress(syn, client);
    SanitizeIgnoresLaterHops(syn, client, rest);
  }

  /** Whatever X-Forwarded-For sanitises to, when truthy, is the visitor's
      address. */
  lemma ForwardedForYields(syn: AddressSyntax, server: map<string, string>, client: string, fallbackToUnknown: bool)
    requires "HTTP_X_FORWARDED_FOR" in server && !Falsy(server["HTTP_X_FORWARDED_FOR"])
    requires SanitizeIp(syn, server["HTTP_X_FORWARDED_FOR"]) == client && !Falsy(client)
    ensures GetVisitorIp(syn, server, fallbackToUnknown) == Success(client)
  {
    ForwardedForDecides(syn, server, fallbackToUnknown);
  }

  /** X-Forwarded-For is read first: when it yields an address, that is the
      visitor's address. */
  lemma ForwardedForDecides(syn: AddressSyntax, server: map<string, string>, fallbackToUnknown: bool)
    requires "HTTP_X_FORWARDED_FOR" in server
    requires !Falsy(server["HTTP_X_FORWARDED_FOR"]) && !Falsy(SanitizeIp(syn, server["HTTP_X_FORWARDED_FOR"]))
    ensures GetVisitorIp(syn, server, fallbackToUnknown) == Success(SanitizeIp(syn, server["HTTP_X_FORWARDED_FOR"]))
  {
    assert IpSources[0] == "HTTP_X_FORWARDED_FOR";
    FirstSourceWins(syn, server, IpSources, fallbackToUnknown);
  }

  /** With none of the forwarding headers set, the connection's own address
      is used when it is valid. */
  lemma RemoteAddrWhenNoHeaders(syn: AddressSyntax, server: map<string, string>, fallbackToUnknown: bool)
    requires forall i :: 0 <= i < |IpSources| - 1 ==> IpSources[i] !in server
    requires syn.Valid() && "REMOTE_ADDR" in server && syn.IsIp(server["REMOTE_ADDR"])
    ensures GetVisitorIp(syn, server, fallbackToUnknown) == Success(server["REMOTE_ADDR"])
  {
    SanitizeKeepsAddress(syn, server["REMOTE_ADDR"]);
    LastSourceWins(syn, server, IpSources, fallbackToUnknown);
  }

  /** When only the last source is set and usable, it decides the scan. */
  lemma LastSourceWins(syn: AddressSyntax, server: map<string, string>, names: seq<string>, fallbackToUnknown: bool)
    requires |names| > 0 && forall i :: 0 <= i < |names| - 1 ==> names[i] !in server
    requires !Falsy(SourceCandidate(syn, server, names[|names| - 1]))
    ensures DetectIp(syn, server, names, fallbackToUnknown) == Success(SourceCandidate(syn, server, names[|names| - 1]))
  {
    var k := |names| - 1;
    UnsetSourcesAreSkipped(syn, server, names, k, fallbackToUnknown);
    assert names[k..] == [names[k]];
    FirstSourceWins(syn, server, names[k..], fallbackToUnknown);
  }

  /** Sources missing from the server variables are passed over. */
  lemma {:induction false} UnsetSourcesAreSkipped(syn: AddressSyntax, server: map<string, string>, names: seq<string>, k: nat, fallbackToUnknown: bool)
    requires k <= |names| && forall i :: 0 <= i < k ==> names[i] !in server
    ensures FirstUsable(syn, server, names) == FirstUsable(syn, server, names[k..])
    ensures DetectIp(syn, server, names, fallbackToUnknown) == DetectIp(syn, server, names[k..], fallbackToUnknown)
    decreases k
  {
    if k > 0 {
      assert Falsy(SourceCandidate(syn, server, names[0]));
      UnsetSourcesAreSkipped(syn, server, names[1..], k - 1, fallbackToUnknown);
      assert names[1..][k - 1..] == names[k..];
    }
  }

  /** A validated address comes out of sanitising unchanged. */
  lemma SanitizeKeepsAddress(syn: AddressSyntax, ip: string)
    requires syn.Valid() && syn.IsIp(ip)
    ensures !Falsy(ip) && SanitizeIp(syn, ip) == ip
  {
    ValidAddressIsClean(syn, ip);
    FirstFieldOfPrefixed(',', ip, "");
    assert ip + "" == ip;
  }

  /** A usable first source decides the scan. */
  lemma FirstSourceWins(syn: AddressSyntax, server: map<string, string>, names: seq<string>, fallbackToUnknown: bool)
    requires |names| > 0 && !Falsy(SourceCandidate(syn, server, names[0]))
    ensures DetectIp(syn, server, names, fallbackToUnknown) == Success(SourceCandidate(syn, server, names[0]))
  {
    assert IsFirstUsable(syn, server, names, 0);
  }

  /** A header holding no valid address is passed over: the scan continues
      with the next source rather than failing. */
  lemma InvalidSourceIsSkipped(syn: AddressSyntax, server: map<string, string>, names: seq<string>, fallbackToUnknown: bool)
    requires |names| > 0 && !syn.IsIp(Trim(FirstField(',', ServerValue(server, names[0]))))
    ensures DetectIp(syn, server, names, fallbackToUnknown) == DetectIp(syn, server, names[1..], fallbackToUnknown)
  {
    assert Falsy(SourceCandidate(syn, server, names[0]));
    FirstUsableShift(syn, server, names);
  }

  /** With neither forwarding header that precedes it set, a valid
      CLIENT_IP address is the visitor's address. */
  lemma ClientIpAfterUnsetForwarding(syn: AddressSyntax, server: map<string, string>, fallbackToUnknown: bool)
    requires "HTTP_X_FORWARDED_FOR" !in server && "HTTP_X_REAL_IP" !in server
    requires "HTTP_CLIENT_IP" in server
    requires syn.Valid() && syn.IsIp(server["HTTP_CLIENT_IP"])
    ensures GetVisitorIp(syn, server, fallbackToUnknown) == Success(server["HTTP_CLIENT_IP"])
  {
    SanitizeKeepsAddress(syn, server["HTTP_CLIENT_IP"]);
    ClientIpIsThirdSource(server);
    ThirdSourceWins(syn, server, fallbackToUnknown);
  }

  lemma ClientIpIsThirdSource(server: map<string, string>)
    requires "HTTP_X_FORWARDED_FOR" !in server && "HTTP_X_REAL_IP" !in server
    ensures IpSources[0] !in server && IpSources[1] !in server && IpSources[2] == "HTTP_CLIENT_IP"
  {
  }

  lemma ThirdSourceWins(syn: AddressSyntax, server: map<string, string>, fallbackToUnknown: bool)
    requires IpSources[0] !in server && IpSources[1] !in server
    requires !Falsy(SourceCandidate(syn, server, IpSources[2]))
    ensures GetVisitorIp(syn, server, fallbackToUnknown) == Success(SourceCandidate(syn, server, IpSources[2]))
  {
    ThirdOfWins(syn, server, IpSources, fallbackToUnknown);
  }

  lemma ThirdOfWins(syn: AddressSyntax, server: map<string, string>, names: seq<string>, fallbackToUnknown: bool)
    requires |names| > 2 && names[0] !in server && names[1] !in server
    requires !Falsy(SourceCandidate(syn, server, names[2]))
    ensures DetectIp(syn, server, names, fallbackToUnknown) == Success(SourceCandidate(syn, server, names[2]))
  {
    ThirdIsFirstUsable(syn, server, names);
  }

  lemma ThirdIsFirstUsable(syn: AddressSyntax, server: map<string, string>, names: seq<string>)
    requires |names| > 2 && names[0] !in server && names[1] !in server
    requires !Falsy(SourceCandidate(syn, server, names[2]))
    ensures IsFirstUsable(syn, server, names, 2)
  {
    forall j | 0 <= j < 2
      ensures SourceCandidate(syn, server, names[j]) == ""
    {
      var name := names[j];
      assert name !in server by {
        if j == 0 { assert name == names[0]; } else { assert name == names[1]; }
      }
      UnsetSourceOffersNothing(syn, server, name);
    }
  }

  /** A source missing from the server variables offers no candidate. */
  lemma UnsetSourceOffersNothing(syn: AddressSyntax, server: map<string, string>, name: string)
    requires name !in server
    ensures SourceCandidate(syn, server, name) == ""
  {
  }
}
