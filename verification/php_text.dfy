/**
 * The PHP 8 string built-ins the plugin relies on, written out: truthiness of
 * strings (`empty`, `!`, `?:`), `trim`, `explode`, `strncmp`, and the
 * `is_numeric` test followed by an `(int)` cast. Integer division and
 * remainder that truncate toward zero are here too.
 */
module PhpText {
  import opened Wrappers

  /** PHP treats exactly "" and "0" as falsy strings. */
  predicate Falsy(s: string) {
    s == "" || s == "0"
  }

  // ---------------------------------------------------------------------------
  // trim
  // ---------------------------------------------------------------------------

  /** The characters `trim` strips by default: space, \t, \n, \r, \0 and \x0B. */
  predicate IsTrimChar(c: char) {
    c == ' ' || c == '\t' || c == '\n' || c == '\r' || c == '\0' || c == '\U{0B}'
  }

  predicate AllTrimChars(s: string) {
    forall i :: 0 <= i < |s| ==> IsTrimChar(s[i])
  }

  /** Number of trim characters at the start of `s`. */
  function LeadingPad(s: string): (k: nat)
    ensures k <= |s|
    ensures forall i :: 0 <= i < k ==> IsTrimChar(s[i])
    ensures k < |s| ==> !IsTrimChar(s[k])
  {
    if s != [] && IsTrimChar(s[0]) then
      var k := 1 + LeadingPad(s[1..]);
      assert forall i :: 1 <= i < k ==> s[i] == s[1..][i - 1];
      k
    else 0
  }

  /** Number of trim characters at the end of `s`. */
  function TrailingPad(s: string): (k: nat)
    ensures k <= |s|
    ensures forall i :: |s| - k <= i < |s| ==> IsTrimChar(s[i])
    ensures k < |s| ==> !IsTrimChar(s[|s| - k - 1])
  {
    if s != [] && IsTrimChar(s[|s| - 1]) then
      var k := 1 + TrailingPad(s[..|s| - 1]);
      assert forall i :: |s| - k <= i < |s| - 1 ==> s[i] == s[..|s| - 1][i];
      k
    else 0
  }

  /** `ltrim($s)`: the suffix left after dropping leading trim characters. */
  function TrimLeft(s: string): (r: string)
    ensures |r| <= |s| && r == s[|s| - |r|..]
    ensures AllTrimChars(s[..|s| - |r|])
    ensures r == [] || !IsTrimChar(r[0])
  {
    s[LeadingPad(s)..]
  }

  /** `rtrim($s)`: the prefix left after dropping trailing trim characters. */
  function TrimRight(s: string): (r: string)
    ensures |r| <= |s| && r == s[..|r|]
    ensures AllTrimChars(s[|r|..])
    ensures r == [] || !IsTrimChar(r[|r| - 1])
  {
    s[..|s| - TrailingPad(s)]
  }

  /** `trim($s)`: the result is a slice of `s` that neither starts nor ends
      with a trim character, and everything cut away is trim characters. */
  function Trim(s: string): (r: string)
    ensures r == [] || (!IsTrimChar(r[0]) && !IsTrimChar(r[|r| - 1]))
    ensures var k := |s| - |TrimLeft(s)|;
      && k + |r| <= |s|
      && r == s[k..k + |r|]
      && AllTrimChars(s[..k])
      && AllTrimChars(s[k + |r|..])
  {
    var l := TrimLeft(s);
    var r := TrimRight(l);
    var k := |s| - |l|;
    assert r == [] || r[0] == l[0];
    assert s[k..k + |r|] == l[..|r|];
    assert s[k + |r|..] == l[|r|..];
    r
  }

  /** A string with no trim character at either end is left alone. */
  lemma TrimKeepsClean(s: string)
    requires s == [] || (!IsTrimChar(s[0]) && !IsTrimChar(s[|s| - 1]))
    ensures Trim(s) == s
  {
  }

  /** Trimming twice is trimming once. */
  lemma TrimIdempotent(s: string)
    ensures Trim(Trim(s)) == Trim(s)
  {
    TrimKeepsClean(Trim(s));
  }

  /** Leading trim characters do not change the trimmed result. */
  lemma {:induction false} LeadingPadOfPadded(l: string, x: string)
    requires AllTrimChars(l)
    ensures LeadingPad(l + x) == |l| + LeadingPad(x)
    decreases |l|
  {
    if l != [] {
      assert (l + x)[0] == l[0];
      assert (l + x)[1..] == l[1..] + x;
      LeadingPadOfPadded(l[1..], x);
    } else {
      assert l + x == x;
    }
  }

  lemma TrimLeftSkipsPadding(l: string, x: string)
    requires AllTrimChars(l)
    ensures TrimLeft(l + x) == TrimLeft(x)
  {
    LeadingPadOfPadded(l, x);
    assert (l + x)[|l| + LeadingPad(x)..] == x[LeadingPad(x)..];
  }

  lemma TrimSkipsPadding(l: string, x: string)
    requires AllTrimChars(l)
    ensures Trim(l + x) == Trim(x)
  {
    TrimLeftSkipsPadding(l, x);
  }

  // ---------------------------------------------------------------------------
  // explode
  // ---------------------------------------------------------------------------

  /** Position of the first occurrence of `c` in `s`. */
  function IndexOf(s: string, c: char): (i: nat)
    requires c in s
    ensures i < |s| && s[i] == c && c !in s[..i]
  {
    if s[0] == c then 0 else 1 + IndexOf(s[1..], c)
  }

  /** The first occurrence is the only position with `c` and no `c` before it. */
  lemma IndexOfUnique(s: string, c: char, i: nat)
    requires i < |s| && s[i] == c && c !in s[..i]
    ensures IndexOf(s, c) == i
  {
  }

  /** `implode` with a one-character glue. */
  function Join(sep: char, parts: seq<string>): string
  {
    if |parts| == 0 then ""
    else if |parts| == 1 then parts[0]
    else parts[0] + [sep] + Join(sep, parts[1..])
  }

  /** `explode($sep, $s)` for a one-character separator: the pieces contain no
      separator and glue back to `s`; there are at least two pieces exactly
      when `s` contains the separator. */
  function Explode(sep: char, s: string): (parts: seq<string>)
    ensures |parts| >= 1
    ensures forall i :: 0 <= i < |parts| ==> sep !in parts[i]
    ensures Join(sep, parts) == s
    ensures |parts| >= 2 <==> sep in s
    decreases |s|
  {
    if sep !in s then [s]
    else
      var i := IndexOf(s, sep);
      var rest := Explode(sep, s[i + 1..]);
      assert s == s[..i] + [sep] + s[i + 1..];
      [s[..i]] + rest
  }

  /** Exploding a glued list of separator-free pieces gives the pieces back. */
  lemma {:induction false} ExplodeJoin(sep: char, parts: seq<string>)
    requires |parts| >= 1
    requires forall i :: 0 <= i < |parts| ==> sep !in parts[i]
    ensures Explode(sep, Join(sep, parts)) == parts
    decreases |parts|
  {
    if |parts| > 1 {
      var s := Join(sep, parts);
      var p := parts[0];
      var tail := Join(sep, parts[1..]);
      assert s == p + [sep] + tail;
      assert s[|p|] == sep;
      assert s[..|p|] == p;
      IndexOfUnique(s, sep, |p|);
      assert s[|p| + 1..] == tail;
      ExplodeJoin(sep, parts[1..]);
    }
  }

  /** The text before the first separator (all of `s` when there is none). */
  function FirstField(sep: char, s: string): (r: string)
    ensures sep !in r
    ensures |r| <= |s| && r == s[..|r|]
    ensures |r| < |s| ==> s[|r|] == sep
  {
    if sep in s then s[..IndexOf(s, sep)] else s
  }

  /** `explode($sep, $s)[0]` is the first field. */
  lemma ExplodeHead(sep: char, s: string)
    ensures Explode(sep, s)[0] == FirstField(sep, s)
  {
  }

  /** A separator-free prefix belongs to the first field. */
  lemma FirstFieldOfPrefixed(sep: char, l: string, x: string)
    requires sep !in l
    ensures FirstField(sep, l + x) == l + FirstField(sep, x)
  {
    if sep in x {
      var i := IndexOf(x, sep);
      assert (l + x)[|l| + i] == sep;
      assert (l + x)[..|l| + i] == l + x[..i];
      IndexOfUnique(l + x, sep, |l| + i);
    } else {
      assert sep !in l + x by {
        forall k | 0 <= k < |l + x|
          ensures (l + x)[k] != sep
        {
          if k < |l| { assert (l + x)[k] == l[k]; } else { assert (l + x)[k] == x[k - |l|]; }
        }
      }
    }
  }

  /** Text after the first separator does not affect the first field. */
  lemma FirstFieldOfAppended(sep: char, x: string, y: string)
    requires sep in x
    ensures FirstField(sep, x + y) == FirstField(sep, x)
  {
    var i := IndexOf(x, sep);
    assert (x + y)[i] == sep;
    assert (x + y)[..i] == x[..i];
    IndexOfUnique(x + y, sep, i);
  }

  // ---------------------------------------------------------------------------
  // strncmp
  // ---------------------------------------------------------------------------

  function Min(a: int, b: int): int {
    if a <= b then a else b
  }

  /** `strncmp($a, $b, $n) === 0` for a length `n >= 0`: the common prefix of
      length min(n, |a|, |b|) agrees and both strings reach the same length
      when cut at `n`. */
  predicate StrncmpEqual<T(==)>(a: seq<T>, b: seq<T>, n: nat) {
    var k := Min(n, Min(|a|, |b|));
    a[..k] == b[..k] && Min(n, |a|) == Min(n, |b|)
  }

  /** `strncmp` reports equality exactly when the first `n` characters of
      both strings (all of a shorter one) are the same. */
  lemma StrncmpIsPrefixEquality<T>(a: seq<T>, b: seq<T>, n: nat)
    ensures StrncmpEqual(a, b, n) <==> a[..Min(n, |a|)] == b[..Min(n, |b|)]
  {
    var k := Min(n, Min(|a|, |b|));
    if a[..Min(n, |a|)] == b[..Min(n, |b|)] {
      assert a[..k] == a[..Min(n, |a|)][..k];
      assert b[..k] == b[..Min(n, |b|)][..k];
    }
    if StrncmpEqual(a, b, n) {
      assert a[..Min(n, |a|)] == a[..k] && b[..Min(n, |b|)] == b[..k];
    }
  }

  // ---------------------------------------------------------------------------
  // Truncating integer arithmetic
  // ---------------------------------------------------------------------------

  /** `(int)($a / $b)`: the quotient truncated toward zero. */
  function TruncDiv(a: int, b: int): (q: int)
    requires b > 0
    ensures a >= 0 ==> 0 <= q && b * q <= a < b * q + b
    ensures a < 0 ==> q <= 0 && b * q - b < a <= b * q
  {
    if a >= 0 then DivBounds(a, b); a / b
    else DivBounds(-a, b); -((-a) / b)
  }

  /** Euclidean division of a non-negative dividend, with its bounds spelled out. */
  lemma DivBounds(x: int, b: int)
    requires x >= 0 && b > 0
    ensures 0 <= x / b && b * (x / b) <= x < b * (x / b) + b
  {
    var q, r := x / b, x % b;
    assert x == b * q + r && 0 <= r < b;
    MulBounds(q, b);
  }

  /** PHP `$a % $b`: the remainder takes the sign of the dividend. */
  function PhpMod(a: int, b: int): (r: int)
    requires b > 0
    ensures a == b * TruncDiv(a, b) + r
    ensures a >= 0 ==> 0 <= r < b
    ensures a < 0 ==> -b < r <= 0
  {
    a - b * TruncDiv(a, b)
  }

  // ---------------------------------------------------------------------------
  // is_numeric and (int)
  // ---------------------------------------------------------------------------

  /** Whitespace `is_numeric` accepts before and (since PHP 8) after a number. */
  predicate IsNumericSpace(c: char) {
    c == ' ' || c == '\t' || c == '\n' || c == '\r' || c == '\U{0B}' || c == '\U{0C}'
  }

  predicate IsDigit(c: char) {
    '0' <= c <= '9'
  }

  predicate AllDigits(s: string) {
    forall i :: 0 <= i < |s| ==> IsDigit(s[i])
  }

  /** Value of a decimal digit string, most significant digit first. */
  function DigitsValue(d: string): nat
    requires AllDigits(d)
  {
    if d == [] then 0 else DigitsValue(d[..|d| - 1]) * 10 + (d[|d| - 1] as int - '0' as int)
  }

  function Pow10(n: nat): (p: nat)
    ensures p >= 1
  {
    if n == 0 then 1 else 10 * Pow10(n - 1)
  }

  /** Length of the run of digits at the start of `s`. */
  function LeadingDigits(s: string): (n: nat)
    ensures n <= |s| && AllDigits(s[..n])
    ensures n < |s| ==> !IsDigit(s[n])
  {
    if s != [] && IsDigit(s[0]) then
      var n := 1 + LeadingDigits(s[1..]);
      assert s[..n] == [s[0]] + s[1..][..n - 1];
      n
    else 0
  }

  /** `s` without its leading numeric whitespace. */
  function DropSpaces(s: string): (r: string)
    ensures |r| <= |s| && r == s[|s| - |r|..]
    ensures r == [] || !IsNumericSpace(r[0])
    ensures AllSpaces(s[..|s| - |r|])
  {
    if s != [] && IsNumericSpace(s[0]) then
      var r := DropSpaces(s[1..]);
      assert s[..|s| - |r|] == [s[0]] + s[1..][..|s| - 1 - |r|];
      r
    else s
  }

  /** `s` without its trailing numeric whitespace. */
  function DropTrailingSpaces(s: string): (r: string)
    ensures |r| <= |s| && r == s[..|r|]
    ensures r == [] || !IsNumericSpace(r[|r| - 1])
    ensures AllSpaces(s[|r|..])
  {
    if s != [] && IsNumericSpace(s[|s| - 1]) then
      var r := DropTrailingSpaces(s[..|s| - 1]);
      assert s[|r|..] == s[..|s| - 1][|r|..] + [s[|s| - 1]];
      r
    else s
  }

  predicate AllSpaces(s: string) {
    forall i :: 0 <= i < |s| ==> IsNumericSpace(s[i])
  }

  /** Digits after an optional sign, at least one. */
  predicate SignedDigits(t: string) {
    if t != [] && (t[0] == '+' || t[0] == '-') then t[1..] != [] && AllDigits(t[1..])
    else t != [] && AllDigits(t)
  }

  /** An exponent part `[eE][+-]?digits`, or nothing. */
  predicate ValidExponent(e: string) {
    e == [] || ((e[0] == 'e' || e[0] == 'E') && SignedDigits(e[1..]))
  }

  function ExponentValue(e: string): int
    requires ValidExponent(e)
  {
    if e == [] then 0
    else
      var t := e[1..];
      if t[0] == '-' then -(DigitsValue(t[1..]) as int)
      else if t[0] == '+' then DigitsValue(t[1..])
      else DigitsValue(t)
  }

  /** `m * 10^p` truncated toward zero (exact decimal arithmetic). */
  function Scale(m: nat, p: int): int
  {
    if p >= 0 then Times(m, Pow10(p)) else m / Pow10(-p)
  }

  /** The product `a * b`, named so that proofs which unfold `Scale` meet a
      function application rather than a bare non-linear product. */
  function Times(a: nat, b: nat): nat
  {
    a * b
  }

  /** The number part of a text `is_numeric` accepts under PHP 8: an
      optional sign, integer digits, an optional point and fraction digits
      (at least one digit overall) and an optional exponent. */
  datatype NumericBody = NumericBody(
    sign: string, intDigits: string, point: bool, fracDigits: string, exponent: string)
  {
    predicate Valid() {
      && (sign == "" || sign == "+" || sign == "-")
      && AllDigits(intDigits) && AllDigits(fracDigits)
      && (!point ==> fracDigits == "")
      && |intDigits| + |fracDigits| > 0
      && ValidExponent(exponent)
    }

    function Text(): string {
      sign + (intDigits + ((if point then "." else "") + (fracDigits + exponent)))
    }

    /** `(int)` of the text: the number it denotes, truncated toward zero. */
    function Value(): int
      requires Valid()
    {
      DigitsConcat(intDigits, fracDigits);
      var magnitude := Scale(DigitsValue(intDigits + fracDigits), ExponentValue(exponent) - |fracDigits|);
      if sign == "-" then -magnitude else magnitude
    }
  }

  /** A whole text `is_numeric` accepts: the number with whitespace before
      and (since PHP 8) after it. */
  datatype NumericText = NumericText(lead: string, body: NumericBody, trail: string)
  {
    predicate Valid() {
      AllSpaces(lead) && AllSpaces(trail) && body.Valid()
    }

    function Text(): string {
      lead + (body.Text() + trail)
    }

    function Value(): int
      requires Valid()
    {
      body.Value()
    }
  }

  lemma DigitsConcat(a: string, b: string)
    requires AllDigits(a) && AllDigits(b)
    ensures AllDigits(a + b)
  {
    forall k | 0 <= k < |a + b| ensures IsDigit((a + b)[k]) {
      if k >= |a| { assert (a + b)[k] == b[k - |a|]; }
    }
  }

  /** The sign the scan reads first: one `+` or `-`, or nothing. */
  function SignPrefix(t: string): (sign: string)
    ensures sign == "" || sign == "+" || sign == "-"
    ensures |sign| <= |t| && t[..|sign|] == sign
  {
    if t != [] && (t[0] == '-' || t[0] == '+') then t[..1] else ""
  }

  /** The scan after the integer digits: an optional point with its
      fraction digits, and what follows as the exponent text. */
  function ScanFraction(a: string): (r: (bool, string, string))
    ensures a == (if r.0 then "." else "") + (r.1 + r.2)
    ensures AllDigits(r.1) && (!r.0 ==> r.1 == "")
  {
    if a != [] && a[0] == '.' then
      var f := LeadingDigits(a[1..]);
      assert a[1..] == a[1..][..f] + a[1..][f..];
      (true, a[1..][..f], a[1..][f..])
    else (false, "", a)
  }

  /** The scan of the number part. */
  function ParseBody(t: string): (r: Option<NumericBody>)
  {
    var sign := SignPrefix(t);
    var u := t[|sign|..];
    var k := LeadingDigits(u);
    var (point, fracDigits, exponent) := ScanFraction(u[k..]);
    if k + |fracDigits| == 0 || !ValidExponent(exponent) then None
    else Some(NumericBody(sign, u[..k], point, fracDigits, exponent))
  }

  /** The scan `is_numeric` performs: strip the whitespace on both sides,
      then read the number part. */
  function ParseNumeric(s: string): (r: Option<NumericText>)
  {
    var core := DropSpaces(s);
    var t := DropTrailingSpaces(core);
    match ParseBody(t)
    case None => None
    case Some(b) => Some(NumericText(s[..|s| - |core|], b, core[|t|..]))
  }

  /** `is_numeric($s) ? (int)$s : null` under PHP 8: a value exactly for the
      texts of the grammar above, and then the value of their (unique)
      reading. */
  function NumericValue(s: string): (r: Option<int>)
    ensures r.Some? <==> exists n: NumericText :: n.Valid() && n.Text() == s
    ensures forall n: NumericText :: n.Valid() && n.Text() == s ==> r == Some(n.Value())
  {
    match ParseNumeric(s)
    case None =>
      NumericTextUnparsed(s);
      None
    case Some(n) =>
      ParseNumericSound(s);
      NumericTextUnique(s, n);
      Some(n.Value())
  }

  lemma ParseBodySound(t: string)
    requires ParseBody(t).Some?
    ensures ParseBody(t).value.Valid() && ParseBody(t).value.Text() == t
  {
    var sign := SignPrefix(t);
    var u := t[|sign|..];
    var k := LeadingDigits(u);
    var r := ScanFraction(u[k..]);
    var b := NumericBody(sign, u[..k], r.0, r.1, r.2);
    assert ParseBody(t) == Some(b);
    assert b.Text() == sign + (u[..k] + u[k..]);
    SplitAt(u, k);
    SplitAt(t, |sign|);
  }

  lemma ParseBodyComplete(b: NumericBody)
    requires b.Valid()
    ensures ParseBody(b.Text()) == Some(b)
  {
    var t := b.Text();
    var pt := if b.point then "." else "";
    var afterInt := pt + (b.fracDigits + b.exponent);
    var u := b.intDigits + afterInt;
    SignOfBody(b);
    assert t[|b.sign|..] == u;
    ExponentStart(b.exponent);
    LeadingDigitsOfPrefix(b.intDigits, afterInt);
    assert u[..|b.intDigits|] == b.intDigits && u[|b.intDigits|..] == afterInt;
    FractionComplete(b.point, b.fracDigits, b.exponent);
  }

  lemma FractionComplete(point: bool, f: string, e: string)
    requires AllDigits(f) && (!point ==> f == "") && ValidExponent(e)
    ensures ScanFraction((if point then "." else "") + (f + e)) == (point, f, e)
  {
    ExponentStart(e);
    var a := (if point then "." else "") + (f + e);
    if point {
      assert a[1..] == f + e;
      LeadingDigitsOfPrefix(f, e);
      assert (f + e)[..|f|] == f && (f + e)[|f|..] == e;
    } else {
      assert a == e;
    }
  }

  /** The sign is read exactly when there is one. */
  lemma SignOfBody(b: NumericBody)
    requires b.Valid()
    ensures SignPrefix(b.Text()) == b.sign
  {
    var t := b.Text();
    var rest := b.intDigits + ((if b.point then "." else "") + (b.fracDigits + b.exponent));
    assert t == b.sign + rest;
    if b.intDigits != [] {
      assert rest[0] == b.intDigits[0];
    } else {
      assert rest[0] == '.';
    }
  }

  /** The number part neither starts nor ends with whitespace. */
  lemma BodyEnds(b: NumericBody)
    requires b.Valid()
    ensures b.Text() != []
    ensures !IsNumericSpace(b.Text()[0]) && !IsNumericSpace(b.Text()[|b.Text()| - 1])
  {
    SignOfBody(b);
    BodyLast(b);
  }

  lemma BodyLast(b: NumericBody)
    requires b.Valid()
    ensures b.Text() != [] && !IsNumericSpace(b.Text()[|b.Text()| - 1])
  {
    var pt := if b.point then "." else "";
    var tail := b.fracDigits + b.exponent;
    var rest := b.intDigits + (pt + tail);
    if b.exponent != [] {
      ExponentEnd(b.exponent);
    }
    if b.fracDigits != [] {
      assert IsDigit(b.fracDigits[|b.fracDigits| - 1]);
    }
    EndsCleanConcat(b.fracDigits, b.exponent);
    EndsCleanConcat(pt, tail);
    if pt + tail == [] {
      assert IsDigit(b.intDigits[|b.intDigits| - 1]);
    }
    EndsCleanConcat(b.intDigits, pt + tail);
    EndsCleanConcat(b.sign, rest);
    assert b.Text() == b.sign + rest;
  }

  /** The text is non-empty and its last character is not whitespace. */
  predicate EndsClean(x: string) {
    x != [] && !IsNumericSpace(x[|x| - 1])
  }

  /** A concatenation ends clean when its right part does, or when its right
      part is empty and its left part does. */
  lemma EndsCleanConcat(a: string, b: string)
    ensures EndsClean(b) || (b == [] && EndsClean(a)) ==> EndsClean(a + b)
  {
    if b == [] {
      assert a + b == a;
    } else {
      assert (a + b)[|a + b| - 1] == b[|b| - 1];
    }
  }

  /** Whatever the scan returns is a reading of the text. */
  lemma ParseNumericSound(s: string)
    requires ParseNumeric(s).Some?
    ensures ParseNumeric(s).value.Valid() && ParseNumeric(s).value.Text() == s
  {
    var core := DropSpaces(s);
    var t := DropTrailingSpaces(core);
    ParseBodySound(t);
    var n := NumericText(s[..|s| - |core|], ParseBody(t).value, core[|t|..]);
    assert ParseNumeric(s) == Some(n);
    assert n.Text() == s[..|s| - |core|] + (t + core[|t|..]);
    SplitAt(core, |t|);
    SplitAt(s, |s| - |core|);
  }

  lemma SplitAt<T>(s: seq<T>, k: nat)
    requires k <= |s|
    ensures s[..k] + s[k..] == s
  {
  }

  /** Every reading of a text is the one the scan finds. */
  lemma ParseNumericComplete(n: NumericText)
    requires n.Valid()
    ensures ParseNumeric(n.Text()) == Some(n)
  {
    var t := n.body.Text();
    BodyEnds(n.body);
    assert (t + n.trail)[0] == t[0];
    DropSpacesOfPadded(n.lead, t + n.trail);
    DropTrailingSpacesOfPadded(t, n.trail);
    assert (t + n.trail)[|t|..] == n.trail;
    ParseBodyComplete(n.body);
  }

  lemma NumericTextUnique(s: string, m: NumericText)
    requires ParseNumeric(s) == Some(m)
    ensures forall n: NumericText :: n.Valid() && n.Text() == s ==> n == m
  {
    forall n: NumericText | n.Valid() && n.Text() == s ensures n == m {
      ParseNumericComplete(n);
    }
  }

  lemma NumericTextUnparsed(s: string)
    requires ParseNumeric(s).None?
    ensures !exists n: NumericText :: n.Valid() && n.Text() == s
  {
    if n: NumericText :| n.Valid() && n.Text() == s {
      ParseNumericComplete(n);
    }
  }

  lemma ExponentStart(e: string)
    requires ValidExponent(e)
    ensures e == [] || (!IsDigit(e[0]) && e[0] != '.')
  {
  }

  lemma ExponentEnd(e: string)
    requires ValidExponent(e) && e != []
    ensures IsDigit(e[|e| - 1])
  {
    var t := e[1..];
    assert e[|e| - 1] == t[|t| - 1];
    if t[0] == '+' || t[0] == '-' {
      assert t[|t| - 1] == t[1..][|t| - 2];
    }
  }

  lemma {:induction false} DropSpacesOfPadded(lead: string, rest: string)
    requires AllSpaces(lead) && (rest == [] || !IsNumericSpace(rest[0]))
    ensures DropSpaces(lead + rest) == rest
    decreases |lead|
  {
    if lead == [] {
      assert lead + rest == rest;
    } else {
      assert (lead + rest)[1..] == lead[1..] + rest;
      DropSpacesOfPadded(lead[1..], rest);
    }
  }

  lemma {:induction false} DropTrailingSpacesOfPadded(core: string, trail: string)
    requires AllSpaces(trail) && (core == [] || !IsNumericSpace(core[|core| - 1]))
    ensures DropTrailingSpaces(core + trail) == core
    decreases |trail|
  {
    if trail == [] {
      assert core + trail == core;
    } else {
      var c := core + trail;
      assert c[..|c| - 1] == core + trail[..|trail| - 1];
      DropTrailingSpacesOfPadded(core, trail[..|trail| - 1]);
    }
  }

  lemma {:induction false} LeadingDigitsOfPrefix(d: string, x: string)
    requires AllDigits(d) && (x == [] || !IsDigit(x[0]))
    ensures LeadingDigits(d + x) == |d|
    decreases |d|
  {
    if d == [] {
      assert d + x == x;
    } else {
      assert (d + x)[1..] == d[1..] + x;
      LeadingDigitsOfPrefix(d[1..], x);
    }
  }

  /** Without an exponent the fraction is dropped: `(int)"-7.9"` is -7. */
  lemma FractionTruncates(n: NumericBody)
    requires n.Valid() && n.exponent == ""
    ensures n.Value() == if n.sign == "-" then -(DigitsValue(n.intDigits) as int) else DigitsValue(n.intDigits)
  {
    var i, f := n.intDigits, n.fracDigits;
    DigitsValueAppend(i, f);
    DigitsValueBound(f);
    DivUnique(DigitsValue(i + f), Pow10(|f|), DigitsValue(i), DigitsValue(f));
    assert ExponentValue(n.exponent) - |f| == -|f|;
    if |f| == 0 {
      assert Scale(DigitsValue(i + f), 0) == DigitsValue(i + f);
    }
  }

  /** Appending digits shifts the value left by their count. */
  lemma {:induction false} DigitsValueAppend(a: string, b: string)
    requires AllDigits(a) && AllDigits(b)
    ensures AllDigits(a + b) && DigitsValue(a + b) == DigitsValue(a) * Pow10(|b|) + DigitsValue(b)
    decreases |b|
  {
    DigitsConcat(a, b);
    if b == [] {
      assert a + b == a;
    } else {
      var b' := b[..|b| - 1];
      var c := b[|b| - 1] as int - '0' as int;
      var ab := a + b;
      assert ab[..|ab| - 1] == a + b';
      assert ab[|ab| - 1] == b[|b| - 1];
      DigitsValueAppend(a, b');
      var x, p, y := DigitsValue(a), Pow10(|b'|), DigitsValue(b');
      ShiftDigit(x, p, y, c);
      assert DigitsValue(ab) == (x * p + y) * 10 + c;
      assert DigitsValue(b) == y * 10 + c && Pow10(|b|) == p * 10;
    }
  }

  /** `d` digits denote less than `10^|d|`. */
  lemma {:induction false} DigitsValueBound(d: string)
    requires AllDigits(d)
    ensures DigitsValue(d) < Pow10(|d|)
    decreases |d|
  {
    if d != [] {
      DigitsValueBound(d[..|d| - 1]);
    }
  }

  /** A multiple of `p` strictly between `-p` and `p` is zero times `p`. */
  lemma MulBounds(k: int, p: int)
    requires p >= 0
    ensures k >= 1 ==> k * p >= p
    ensures k <= -1 ==> k * p <= -p
  {
    assert k * p == (k - 1) * p + p;
    assert k * p == (k + 1) * p - p;
  }

  /** Quotient and remainder are unique. */
  lemma DivUnique(x: int, p: int, q: int, r: int)
    requires p > 0 && 0 <= r < p && x == q * p + r
    ensures x / p == q
  {
    var q', r' := x / p, x % p;
    assert x == q' * p + r' && 0 <= r' < p;
    assert (q' - q) * p == r - r';
    MulBounds(q' - q, p);
  }

  lemma ShiftDigit(x: int, p: int, y: int, c: int)
    ensures (x * p + y) * 10 + c == x * (p * 10) + (y * 10 + c)
  {
  }


  // ---------------------------------------------------------------------------
  // Decimal rendering, the partner of NumericValue
  // ---------------------------------------------------------------------------

  function DigitChar(d: nat): char
    requires d < 10
  {
    ('0' as int + d) as char
  }

  /** Decimal digits of a natural number, without leading zeros. */
  function NatText(n: nat): (s: string)
    ensures s != [] && AllDigits(s)
    ensures DigitsValue(s) == n
    decreases n
  {
    if n < 10 then [DigitChar(n)]
    else
      var s := NatText(n / 10) + [DigitChar(n % 10)];
      assert s[..|s| - 1] == NatText(n / 10);
      s
  }

  /** Decimal text of an integer, as PHP prints it. */
  function IntText(n: int): string
  {
    if n < 0 then "-" + NatText(-n) else NatText(n)
  }

  /** Reading back the decimal text of any integer yields that integer. */
  lemma NumericValueOfIntText(n: int)
    ensures NumericValue(IntText(n)) == Some(n)
  {
    var t := IntReading(n);
  }

  /** The decimal text of an integer is a reading denoting it. */
  lemma IntReading(n: int) returns (t: NumericText)
    ensures t.Valid() && t.Text() == IntText(n) && t.Value() == n
  {
    var b := IntBody(n);
    t := NumericText("", b, "");
    assert "" + (b.Text() + "") == b.Text();
  }

  /** The decimal text of an integer is a number part denoting it. */
  lemma IntBody(n: int) returns (b: NumericBody)
    ensures b.Valid() && b.Text() == IntText(n) && b.Value() == n
  {
    var d := NatText(if n < 0 then -n else n);
    var sign := if n < 0 then "-" else "";
    b := NumericBody(sign, d, false, "", "");
    assert b.Text() == sign + d by { assert d + ("" + ("" + "")) == d; }
    FractionTruncates(b);
  }
}
