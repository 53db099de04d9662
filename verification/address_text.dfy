/**
 * Textual IP addresses. PHP's `filter_var(..., FILTER_VALIDATE_IP)` and
 * `inet_pton` are library code outside the plugin; the model takes them as a
 * parameter (`AddressSyntax`) and states, in `Valid`, only the facts about
 * them the plugin's logic depends on.
 */
module AddressText {
  import opened Wrappers
  import opened PhpText

  /** What holds of every text `filter_var` accepts as an address: it is
      truthy, has no surrounding whitespace, and contains neither a comma nor
      a slash (dotted quads use digits and dots; IPv6 texts hex digits,
      colons and dots). */
  predicate PlainAddress(s: string) {
    && !Falsy(s)
    && ',' !in s && '/' !in s
    && !IsTrimChar(s[0]) && !IsTrimChar(s[|s| - 1])
  }

  /** The address-parsing built-ins the plugin calls:
      - `isIpv4(s)`: `filter_var(s, FILTER_VALIDATE_IP, FILTER_FLAG_IPV4)` accepts `s`;
      - `isIpv6(s)`: `filter_var(s, FILTER_VALIDATE_IP, FILTER_FLAG_IPV6)` accepts `s`;
      - `pton(s)`:   `inet_pton(s)`, `None` standing for PHP's `false`. */
  datatype AddressSyntax = AddressSyntax(
    isIpv4: string -> bool,
    isIpv6: string -> bool,
    pton: string -> Option<seq<bv8>>)
  {
    /** `filter_var(s, FILTER_VALIDATE_IP)` accepts `s` (either family). */
    predicate IsIp(s: string) {
      isIpv4(s) || isIpv6(s)
    }

    /** What the plugin relies on: a valid IPv4 text converts to 4 bytes, a
        valid IPv6 text to 16, `inet_pton` never yields another length, and
        valid texts are plain. */
    ghost predicate Valid() {
      && (forall s :: isIpv4(s) ==> pton(s).Some? && |pton(s).value| == 4)
      && (forall s :: isIpv6(s) ==> pton(s).Some? && |pton(s).value| == 16)
      && (forall s :: pton(s).Some? ==> |pton(s).value| == 4 || |pton(s).value| == 16)
      && (forall s :: IsIp(s) ==> PlainAddress(s))
    }
  }

  /** A validated address is plain, so `trim` leaves it alone. */
  lemma ValidAddressIsClean(syn: AddressSyntax, s: string)
    requires syn.Valid() && syn.IsIp(s)
    ensures PlainAddress(s) && Trim(s) == s
  {
    TrimKeepsClean(s);
  }
}
