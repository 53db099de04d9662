# Access Key: a model of the administrator gate

The Access Key system plugin for Joomla keeps the administrator area closed
unless the request carries a secret URL parameter (the "key"), or the
visitor's address is on a whitelist of addresses and CIDR ranges. Once a
request gets in, the session stays authorised. A refused request is answered
with a 401 message, a redirect, or nothing, depending on the "failure action"
setting.

This project models the decision core of the plugin in Dafny and proves
properties of it:

- `cidr.dfy` (module `Cidr`) holds the byte-and-mask prefix comparison of
  `isIpInCidrRange`, as PHP computes it. It also holds a reference reading:
  the first *n* bits of the two binary addresses agree. The two are proved
  equivalent for every prefix length.
- `ip_helper.dfy` (module `IpHelper`) holds CIDR containment on address
  texts, whitelist evaluation, `sanitizeIp`, and the ordered scan of server
  variables in `getVisitorIp`.
- `accesskey.dfy` (module `Accesskey`) holds the gate `onAfterInitialise`,
  `handleAccessDenied` and `getHttpStatusText`. It also applies the gate to a
  run of requests in one session.
- `access_key_exception.dfy` (module `Exceptions`) holds the exception type
  and its five factories.
- `legacy_ip_helper.dfy` and `legacy_accesskey.dfy` hold the first-generation
  helper and gate. The gate takes the unfiltered `getenv` value of the first
  truthy server variable and compares it verbatim with the whitelist entries.
  The helper reads the same kind of variables through Joomla's input with its
  default `cmd` filter, which the model takes as the identity (see "## Left
  out"). Its facts below therefore hold for values that this filter leaves
  unchanged, such as IPv4 addresses. The proofs about them show:
  - a visitor whose address cannot be found at all is let in without the key
    whenever the whitelist setting has a blank field, and an empty setting is
    such a case; the current gate never admits an undetected visitor through
    the whitelist;
  - the legacy gate reads the same address as the legacy helper whenever one
    of the six server variables it consults is truthy and the `cmd` filter
    leaves the values unchanged; when none is truthy, the gate reads "" while
    the helper returns REMOTE_ADDR's falsy value ("" or "0"), or "UNKNOWN"
    with its fallback (`LegacyAccesskey.GateMatchesHelper`). An IPv6 address
    or a proxy chain is not left unchanged: for HTTP_CLIENT_IP "2001:db8::1"
    the gate reads "2001:db8::1" and the helper returns "2001db81";
  - an unfiltered proxy chain read by the gate, and an entry written as a
    range, never match;
  - an exact entry that admits an administrator (with a key configured) at the
    legacy gate through HTTP_CLIENT_IP still admits them at the current gate,
    but only when HTTP_X_FORWARDED_FOR and HTTP_X_REAL_IP are unset and
    HTTP_CLIENT_IP holds a valid address (`LegacyAccesskey.ExactEntriesStillAdmit`).
    The current helper reads X-Forwarded-For first, so with whitelist
    "1.2.3.4", HTTP_CLIENT_IP "1.2.3.4" and HTTP_X_FORWARDED_FOR "5.6.7.8" the
    legacy gate admits and the current gate does not.
- `php_text.dfy` (module `PhpText`) holds the PHP 8 built-ins the code relies
  on, written out:
  - string truthiness (`empty`, `!`, `?:`);
  - `trim`, `explode` and `strncmp`;
  - `is_numeric` followed by `(int)`, as a grammar of numeric texts and a scan
    proved to find the one reading of every text of the grammar;
  - integer division and `%` that truncate toward zero.
- `address_text.dfy` (module `AddressText`) stands in for `filter_var` and
  `inet_pton`. It takes them as a parameter record `AddressSyntax`. Its
  `Valid()` states the only facts about them the proofs use:
  - a valid IPv4 text converts to 4 bytes and a valid IPv6 text to 16;
  - `inet_pton` never yields another length;
  - a valid text is truthy, carries no surrounding whitespace, and contains
    no `,` or `/`.

Server variables and request parameters are maps. The session flag goes
into the gate and comes back out of it. What the framework does (logging,
headers, echo, closing the application) is reduced to a `Response` value and
a `Decision` saying why the gate finished.

The code has no range check on the prefix length
(src/Helper/IpHelper.php:55-87):
- a prefix of zero or less admits every address of the subnet's family
  (`IpHelper.NonPositivePrefixAdmitsFamily`);
- a prefix at or beyond the address width demands equal addresses
  (`Cidr.PrefixMatch`).

When no source is set and no fallback is requested, the legacy helper returns
the last value it read, REMOTE_ADDR's (helpers/IpHelper.php:53-59). That value
is falsy but may be "0" (`LegacyIpHelper.GetVisitorIp`).

## Model

| member | source | states |
|---|---|---|
| Exceptions.Unauthorized | src/Exception/AccessKeyException.php:30-33 | the exception carries the given message and code (default "Unauthorized access", 401) |
| Exceptions.IpDetectionFailed | src/Exception/AccessKeyException.php:45-48 | the exception carries the given message and code (default "Failed to detect IP address", 500) |
| Exceptions.ConfigurationError | src/Exception/AccessKeyException.php:60-63 | the exception carries the given message and code (default "Configuration error", 500) |
| Exceptions.InvalidIp | src/Exception/AccessKeyException.php:75-78 | the exception carries the given message and code (default "Invalid IP address", 400) |
| Exceptions.AccessDenied | src/Exception/AccessKeyException.php:90-93 | the exception carries the given message and code (default "Access denied", 403) |
| Exceptions.FactoryDefaults | src/Exception/AccessKeyException.php:30-93 | each factory called without arguments yields its documented message and code |
| Exceptions.MessageOnlyKeepsDefaultCode | src/Exception/AccessKeyException.php:30-93 | a factory given only a message keeps its default code |
| PhpText.Trim | src/Helper/IpHelper.php:107 | the result is a contiguous slice of the input; it neither starts nor ends with a trim character; everything cut off on either side is trim characters |
| PhpText.TrimIdempotent | src/Helper/IpHelper.php:140-145 | trimming twice is the same as trimming once |
| PhpText.TrimSkipsPadding | src/Helper/IpHelper.php:140-145 | leading whitespace does not change the trimmed text |
| PhpText.Explode | src/Helper/IpHelper.php:48 | the pieces contain no separator; joined with the separator they give back the input; there are two or more pieces exactly when the input contains the separator |
| PhpText.ExplodeJoin | src/Extension/Accesskey.php:89 | splitting a joined list of separator-free pieces gives back exactly those pieces |
| PhpText.ExplodeHead | src/Helper/IpHelper.php:145 | `explode(',', s)[0]` is the text before the first comma |
| PhpText.StrncmpIsPrefixEquality | src/Helper/IpHelper.php:75 | `strncmp(a, b, n) === 0` holds exactly when the first `n` characters of both strings (all of a shorter one) are the same |
| PhpText.TruncDiv | src/Helper/IpHelper.php:71 | `(int)($a / $b)` with `b > 0`: a non-negative dividend gives the largest quotient whose multiple does not exceed it, a negative one the smallest whose multiple is not below it; both round toward zero |
| PhpText.PhpMod | src/Helper/IpHelper.php:72 | `$a % $b` is a remainder consistent with the truncating quotient, with the dividend's sign |
| PhpText.NumericValue | src/Helper/IpHelper.php:51-55 | a value is returned exactly when the text is whitespace, an optional sign, digits with an optional point and fraction (at least one digit), an optional exponent, and whitespace; it is then the value of that reading |
| PhpText.ParseNumericSound | src/Helper/IpHelper.php:51 | whatever the scan returns is a valid reading that spells the input text |
| PhpText.ParseNumericComplete | src/Helper/IpHelper.php:51 | every valid reading of a text is the one the scan returns, so readings are unique |
| PhpText.FractionTruncates | src/Helper/IpHelper.php:55 | without an exponent `(int)` drops the fraction, rounding toward zero for either sign |
| PhpText.NumericValueOfIntText | src/Helper/IpHelper.php:51-55 | `(int)` applied to the decimal text of any integer that passes `is_numeric` gives that integer back |
| AddressText.ValidAddressIsClean | src/Helper/IpHelper.php:149-155 | a text that address validation accepts is truthy, comma-free and slash-free, and `trim` leaves it unchanged |
| Cidr.MaskedByte | src/Helper/IpHelper.php:81-82 | the unclipped mask applied to a byte stays within a byte; no remaining bits give 0, eight give the byte itself |
| Cidr.PrefixMatch | src/Helper/IpHelper.php:70-87 | a prefix of zero or less matches any two same-length addresses; a prefix at or beyond the address width matches exactly equal addresses |
| Cidr.PrefixMatchIsPrefixAgreement | src/Helper/IpHelper.php:70-87 | for same-length binary addresses, the byte compare plus masked partial byte holds exactly when their first `bits` bits agree, with `bits` clamped to [0, width] |
| Cidr.PartialPrefixMatch | src/Helper/IpHelper.php:74-85 | for a prefix strictly inside the address, the `strncmp` of whole bytes plus the masked next byte is bit-prefix agreement |
| Cidr.FullPrefixMatch | src/Helper/IpHelper.php:74-77 | for a prefix covering the whole address, the comparison is agreement of all bits |
| Cidr.ByteMask | src/Helper/IpHelper.php:80-85 | the unclipped mask `0xff << (8 - r)` on two bytes compares exactly their top `r` bits |
| IpHelper.IsIpInCidrRange | src/Helper/IpHelper.php:36-88 | false for falsy inputs or a range without `/`; otherwise true exactly when the subnet is a valid address, the prefix is numeric, both addresses convert, their lengths agree, and their first (clamped) prefix bits agree |
| IpHelper.CidrIgnoresExtraFields | src/Helper/IpHelper.php:48 | whatever follows a second `/` in a range never changes the answer |
| IpHelper.NonPositivePrefixAdmitsFamily | src/Helper/IpHelper.php:55-87 | a valid subnet with a numeric prefix of zero or less admits every truthy address of its family |
| IpHelper.ScanEntries | src/Helper/IpHelper.php:106-125 | the loop returns true exactly when some entry, trimmed, is truthy and either equals the address or contains `/` and is a range holding it |
| IpHelper.IsIpInWhitelist | src/Helper/IpHelper.php:100-126 | true exactly when the address is truthy and some entry admits it |
| IpHelper.WhitelistOrderIrrelevant | src/Helper/IpHelper.php:100-126 | any permutation of the whitelist gives the same answer |
| IpHelper.BlankEntriesNeverAdmit | src/Helper/IpHelper.php:107-110 | an entry that trims to a falsy text is skipped |
| IpHelper.TrimmedFirstHop | src/Helper/IpHelper.php:140-146 | trimming, then taking and trimming the first comma field when there is a comma, equals trimming the first comma field of the raw text |
| IpHelper.SanitizeIp | src/Helper/IpHelper.php:137-161 | the result is "" or a valid address; it is the trimmed first comma field when that field is a valid IPv4 or IPv6 address, else "" |
| IpHelper.SanitizeIgnoresLaterHops | src/Helper/IpHelper.php:143-146 | text after the first comma never changes the result |
| IpHelper.SanitizeIdempotent | src/Helper/IpHelper.php:137-161 | sanitising a sanitised value changes nothing |
| IpHelper.SanitizeKeepsAddress | src/Helper/IpHelper.php:140-155 | a valid address is truthy and sanitises to itself |
| IpHelper.SourceCandidate | src/Helper/IpHelper.php:186-189 | what one server variable offers is "" or a valid address |
| IpHelper.FirstUsable | src/Helper/IpHelper.php:185-194 | the loop finds nothing exactly when every source's candidate is falsy; otherwise it returns the candidate of the first usable source, which is a valid address |
| IpHelper.DetectIp | src/Helper/IpHelper.php:173-203 | the first usable source's sanitised value is returned; with no usable source the result is "Unknown" when the fallback is requested, else the `ipDetectionFailed` exception with the source's message and code 500; any other success is a valid address |
| IpHelper.GetVisitorIp | src/Helper/IpHelper.php:175-203 | over the plugin's seven sources in their fixed order, the first usable source's sanitised value is returned; with none, "Unknown" under the fallback, else the `ipDetectionFailed` exception with code 500 |
| IpHelper.FirstSourceWins | src/Helper/IpHelper.php:185-192 | a usable first source decides the scan |
| IpHelper.InvalidSourceIsSkipped | src/Helper/IpHelper.php:186-193 | a source whose first hop is not a valid address is passed over rather than failing the scan |
| IpHelper.UnsetSourcesAreSkipped | src/Helper/IpHelper.php:185-194 | sources missing from the server variables are passed over |
| IpHelper.LastSourceWins | src/Helper/IpHelper.php:175-194 | when only the last source is set and usable, it decides the scan |
| IpHelper.ForwardedForDecides | src/Helper/IpHelper.php:175-192 | a usable X-Forwarded-For header is the visitor's address, whatever the other sources hold |
| IpHelper.ForwardedForFirstHopWins | src/Helper/IpHelper.php:143-192 | of an X-Forwarded-For chain "client,rest" with a valid client, the client is the visitor's address |
| IpHelper.FirstHopOfChain | src/Helper/IpHelper.php:137-161 | a chain starting with a valid address is truthy and sanitises to that address |
| IpHelper.RemoteAddrWhenNoHeaders | src/Helper/IpHelper.php:175-194 | with no forwarding header set, a valid REMOTE_ADDR is the visitor's address |
| IpHelper.ClientIpAfterUnsetForwarding | src/Helper/IpHelper.php:175-194 | with X-Forwarded-For and X-Real-IP unset, a valid CLIENT_IP is the visitor's address |
| Accesskey.HttpStatusText | src/Extension/Accesskey.php:201-211 | the reason phrase of 401, 403, 404 and 500; "Unknown Error" exactly for every other code |
| Accesskey.ExceptionStatusTexts | src/Extension/Accesskey.php:158-160 | each factory's default code gets its reason phrase, except `invalidIp`'s 400, which gets "Unknown Error" |
| Accesskey.HandleAccessDenied | src/Extension/Accesskey.php:137-168 | "message" answers 401 "Unauthorized" with the configured message or "Unauthorized access" when it is falsy; "redirect" goes to the configured URL or the site root when it is falsy; any other action emits nothing |
| Accesskey.DeniedMessageNeverBlank | src/Extension/Accesskey.php:140-145 | the 401 body is never falsy |
| Accesskey.WhitelistEntries | src/Extension/Accesskey.php:89 | one entry per comma field of the setting, each the trimmed field |
| Accesskey.WhitelistTest | src/Extension/Accesskey.php:85-106 | true exactly when some source first yields the visitor's address and some whitelist entry admits it; a failed detection is caught and counts as not whitelisted |
| Accesskey.OnAfterInitialise | src/Extension/Accesskey.php:67-116 | the session becomes authorised exactly when it already was, or a key is configured, the request is for the administrator area, and the visitor is whitelisted or the key parameter is present; each decision (already authorised, no key configured, not the administrator area, whitelisted, key provided, denied) is returned exactly under its own condition, the earlier checks deciding first; the whitelist notice is queued exactly when the key is absent; a denial leaves the flag unset and gives `handleAccessDenied`'s response |
| Accesskey.KeyValueIgnored | src/Extension/Accesskey.php:109-113 | only the presence of the key parameter counts: with a key configured, an administrator request carrying it with any value, "" included, is admitted |
| Accesskey.AuthorizationIsSticky | src/Extension/Accesskey.php:70-73 | an authorised session passes untouched and stays authorised |
| Accesskey.SiteRequestsPass | src/Extension/Accesskey.php:81-83 | front-end requests are never denied |
| Accesskey.NoKeyMeansOpen | src/Extension/Accesskey.php:76-79 | without a configured key the gate does nothing |
| Accesskey.EmptyWhitelistAdmitsNobody | src/Extension/Accesskey.php:89-91 | an empty whitelist setting admits no visitor |
| Accesskey.UndetectedVisitorNeedsKey | src/Extension/Accesskey.php:85-113 | when no source yields an address, the key alone decides admission |
| Accesskey.WhitelistedVisitorNotice | src/Extension/Accesskey.php:91-101 | a whitelisted administrator request is admitted, with the notice exactly when the key is absent |
| Accesskey.RunSession | src/Extension/Accesskey.php:67-127 | one outcome per request; the first is the gate applied to the initial flag, each later one the gate applied to the flag the previous request left; a session authorised from the start passes every request as already authorised |
| Accesskey.AdmissionLastsForSession | src/Extension/Accesskey.php:70-73 | once a request of a session is admitted, every later request is passed as already authorised |
| LegacyIpHelper.ChainResult | helpers/IpHelper.php:33-53 | the chain of `empty` checks keeps a truthy value; otherwise it takes the first truthy source, or the last source's value when none is truthy |
| LegacyIpHelper.GetVisitorIp | helpers/IpHelper.php:30-60 | for values the `cmd` input filter leaves unchanged: the value of the first truthy source; with none, "UNKNOWN" under the fallback and otherwise REMOTE_ADDR's falsy value; a falsy result means no fallback and no truthy source |
| LegacyIpHelper.IgnoresRealIpHeader | helpers/IpHelper.php:33-53 | the X-Real-IP header never changes the result |
| LegacyIpHelper.UnreadNamesAreIrrelevant | helpers/IpHelper.php:33-53 | the chain depends only on the variables it reads |
| LegacyIpHelper.EarlierGarbageWins | helpers/IpHelper.php:33-37 | a truthy CLIENT_IP that the `cmd` input filter leaves unchanged is returned unvalidated, whatever the later sources hold |
| LegacyAccesskey.FirstTruthyValue | accesskey.php:43-55 | the value of the first truthy environment variable, or "" when none is truthy |
| LegacyAccesskey.VisitorIp | accesskey.php:43-55 | over the six variables in the gate's order, the value of the first truthy one, or "" when none is truthy |
| LegacyAccesskey.HandleDenied | accesskey.php:70-89 | "message" answers 401 with the configured message as it is; "redirect" goes to the URL or the site root; other actions fall through; apart from "message" it agrees with the current `handleAccessDenied` |
| LegacyAccesskey.OnAfterInitialise | accesskey.php:24-91 | the session becomes authorised exactly when it already was, or a key is configured, the request is for the administrator area, and the unfiltered `getenv` address equals a trimmed whitelist field or the key parameter is present; each decision is returned exactly under its own condition; no notice; a denial gives the legacy response |
| LegacyAccesskey.GateMatchesHelper | accesskey.php:43-55 | for values the helper's `cmd` input filter leaves unchanged: the gate's address is the legacy helper's whenever some variable is truthy, and "" otherwise |
| LegacyAccesskey.EmptyAddressFailsOpen | accesskey.php:43-60 | with a key configured, no truthy address variable and an empty whitelist setting, an administrator request is admitted through the whitelist without the key |
| LegacyAccesskey.BlankFieldAdmitsEmptyAddress | accesskey.php:56-57 | any setting with a blank field lists the empty address |
| LegacyAccesskey.ProxyChainNeverListed | accesskey.php:56-57 | an address containing a comma, such as a proxy chain read unfiltered by `getenv`, is never listed |
| LegacyAccesskey.RangesNeverMatch | accesskey.php:56-57 | entries written as ranges never list an address without `/` |
| LegacyAccesskey.ExactEntriesStillAdmit | accesskey.php:43-60 | with X-Forwarded-For and X-Real-IP unset and a valid CLIENT_IP, every visitor the legacy gate whitelists is whitelisted by the current gate |
| LegacyAccesskey.VerbatimEntryAdmits | src/Helper/IpHelper.php:106-115 | a truthy address listed verbatim in the setting is admitted by the current whitelist test |

## Left out

- Logging (`Log::add`), headers, `echo`, `die` and closing the application are
  not modelled. Their effect is the `Response` and `Decision` values.
- Session storage is not modelled: the "authorised" flag goes in and comes
  back out as a value.
- The catch-all handler of `onAfterInitialise` (src/Extension/Accesskey.php:118-126)
  is not modelled. The modelled path throws two `AccessKeyException`s and
  catches both where the model handles them: `ipDetectionFailed`, caught at
  line 103 (the visitor is not whitelisted), and `unauthorized`, thrown at
  line 144 and caught at line 158 (the 401 answer of `HandleAccessDenied`).
  The catch-all handler answers a framework failure, and the framework is
  outside the model.
- `showWhitelistMessage` (src/Extension/Accesskey.php:177-190) is reduced to
  the `notice` flag of the `Whitelisted` decision. The message text comes
  from the language files, which are outside the model.
- `filter_var` and `inet_pton` are library code. They are a parameter; only
  the facts in `AddressSyntax.Valid` are assumed of them.
- Joomla's input filters (`getString`, `get`) and `getenv` are treated as plain
  map lookups. A missing variable or parameter reads as "". So does a `null`
  setting passed through `?? ''`. `getenv` in the legacy gate applies no
  filter, so the lookup models it exactly. The current helper's `getString`
  strips markup, which leaves address texts and comma-separated chains
  unchanged. The legacy helper's
  `get(name, '')` applies Joomla's default `cmd` filter. That filter keeps
  only letters, digits, `_`, `.` and `-` and drops leading dots. So
  "2001:db8::1" reaches that helper as "2001db81", and "1.2.3.4, 5.6.7.8" as
  "1.2.3.45.6.7.8". A value the filter empties, such as "::", is skipped for
  the next source.
- LegacyIpHelper.GetVisitorIp: describes the program only for server values
  that the `cmd` filter leaves unchanged, such as IPv4 addresses, because the
  filter is not modelled.
- LegacyIpHelper.EarlierGarbageWins: holds only for a CLIENT_IP value that the
  `cmd` filter leaves unchanged; one it empties, such as "::", is skipped in
  the program.
- LegacyAccesskey.GateMatchesHelper: holds only for values that the `cmd`
  filter leaves unchanged; for an IPv6 address or a proxy chain the helper's
  filtered value differs from the gate's unfiltered one.
- PhpText.NumericValue: a text with a fraction or an exponent is valued in
  exact decimal arithmetic and then truncated toward zero. PHP converts such
  a text to the nearest double first, so texts with more significant digits
  than a double holds can differ. For example, `10.0.0.0/0.99999999999999999999`
  has prefix 1 in PHP (so 200.1.1.1 is outside it) and prefix 0 in the model
  (so every IPv4 address is inside it); `/23.99999999999999999999` is 24 in
  PHP and 23 here. PHP then caps a finite double outside the 64-bit range to
  the nearest 64-bit bound, but turns an infinite one into 0. So a prefix
  whose double overflows, such as `10.0.0.0/1e400`, is 0 in PHP and the range
  admits every IPv4 address. The model values it as 10^400, and the range then
  admits only 10.0.0.0 itself. For this input the model is stricter than PHP,
  which fails open. Integer texts without fraction or exponent agree up to the
  64-bit range.
- Indexing with the float `$bytes` is treated as truncation. The warning
  "String offset cast occurred" that PHP raises for it is not modelled.
- LegacyAccesskey.OnAfterInitialise: `in_array` compares loosely (`==`). Two
  numeric texts compare by value, so "1.0" equals "1.00" and "1e1" equals
  "10.0". The model uses exact equality. The two agree whenever either side
  is a valid IPv4 or IPv6 text, because such a text is never numeric.
- script.php, services/provider.php, src/Field/IpField.php, elements/ip.php
  and helpers/AccessKeyException.php are not part of this model. They hold
  installation, service registration, the admin form field for the
  whitelist, and the older exception class.
