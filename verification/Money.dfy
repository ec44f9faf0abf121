/** Money amounts as integer cents: reading an amount from raw text, and displaying it. */
module Money {
  import opened Wrappers
  import opened Text
  import opened Integers


  datatype MoneyState = Exact | Zero | NotApplicable | Various | IdiqCeiling | Unknown | Unparseable

  datatype MoneyValue = MoneyValue(raw: string, state: MoneyState, cents: Option<int>)

  // ---------------------------------------------------------------- decimal numbers

  predicate AllDigits(s: string) {
    forall i :: 0 <= i < |s| ==> IsDigit(s[i])
  }

  function DigitValue(c: char): nat
    requires IsDigit(c)
  {
    c as int - '0' as int
  }

  function Value(s: string): nat
    requires AllDigits(s)
  {
    if s == "" then 0 else 10 * Value(s[..|s| - 1]) + DigitValue(s[|s| - 1])
  }

  function DigitChar(d: nat): (c: char)
    requires d < 10
    ensures IsDigit(c) && DigitValue(c) == d
  {
    ('0' as int + d) as char
  }

  function Decimal(n: nat): (r: string)
    ensures r != "" && AllDigits(r)
    ensures Value(r) == n
  {
    if n < 10 then [DigitChar(n)]
    else
      var front := Decimal(n / 10);
      var r := front + [DigitChar(n % 10)];
      assert r[..|r| - 1] == front;
      r
  }

  function Repeat(c: char, n: nat): (r: string)
    ensures |r| == n && forall i :: 0 <= i < n ==> r[i] == c
  {
    seq(n, i => c)
  }

  /** `str::parse::<i64>` on a text of digits: empty text and overflow are errors. */
  function ParseI64(s: string): Option<int>
    requires AllDigits(s)
  {
    if s == "" || Value(s) > I64_MAX then None else Some(Value(s))
  }

  function Checked(n: int): Option<int> {
    if -I64_MAX - 1 <= n <= I64_MAX then Some(n) else None
  }

  // ---------------------------------------------------------------- parse_cents

  function TrimStartChar(s: string, c: char): string {
    if s != "" && s[0] == c then TrimStartChar(s[1..], c) else s
  }

  function TrimEndChar(s: string, c: char): string {
    if s != "" && s[|s| - 1] == c then TrimEndChar(s[..|s| - 1], c) else s
  }

  /** `split_once('.')`, with the whole text and an empty fraction when there is no point. */
  function SplitPoint(s: string): (string, string) {
    if s == "" then ("", "")
    else if s[0] == '.' then ("", s[1..])
    else
      var (whole, frac) := SplitPoint(s[1..]);
      ([s[0]] + whole, frac)
  }

  predicate IsNumeric(c: char) {
    IsDigit(c) || c == '.' || c == '-'
  }

  function Magnitude(whole: string, frac: string): Option<int>
    requires AllDigits(whole) && AllDigits(frac) && |frac| <= 2
  {
    var wholeInt := ParseI64(whole);
    if wholeInt.None? then None
    else
      var fracVal := if frac == "" then Some(0) else ParseI64(if |frac| == 1 then frac + "0" else frac);
      if fracVal.None? then None
      else
        var scaled := Checked(wholeInt.value * 100);
        if scaled.None? then None else Checked(scaled.value + fracVal.value)
  }

  function ParseParts(negative: bool, whole: string, rawFrac: string): Option<int> {
    var frac := TrimEndChar(rawFrac, '0');
    if !AllDigits(whole) || |frac| > 2 || !AllDigits(frac) then None
    else
      var cents := Magnitude(whole, frac);
      if cents.None? then None else Some(if negative then -cents.value else cents.value)
  }

  function ParseCompact(compact: string): Option<int> {
    var negative := compact != "" && compact[0] == '-';
    var unsigned := TrimStartChar(compact, '-');
    if unsigned == "" then None
    else
      var (whole, rawFrac) := SplitPoint(unsigned);
      ParseParts(negative, whole, rawFrac)
  }

  function ParseCents(cleaned: string): Option<int> {
    ParseCompact(Filter(cleaned, IsNumeric))
  }

  // ---------------------------------------------------------------- the amount grammar

  /** Hundredths written after the point, padded to two digits. */
  function Hundredths(frac: string): nat
    requires AllDigits(frac) && |frac| <= 2
  {
    if |frac| == 0 then 0 else if |frac| == 1 then 10 * DigitValue(frac[0]) else 10 * DigitValue(frac[0]) + DigitValue(frac[1])
  }

  function Rendering(hyphens: nat, whole: string, point: bool, frac: string, zeros: nat): string {
    Repeat('-', hyphens) + whole + (if point then "." + frac + Repeat('0', zeros) else "")
  }

  /** `text` is hyphens, digits and possibly a point with at most two digits before trailing
      zeros, and stands for `cents`; any hyphen makes the amount negative. */
  ghost predicate Denotes(text: string, cents: int) {
    exists hyphens: nat, whole, point, frac, zeros: nat ::
      DenotesAs(text, cents, hyphens, whole, point, frac, zeros)
  }

  predicate DenotesAs(text: string, cents: int, hyphens: nat, whole: string, point: bool, frac: string, zeros: nat) {
    && text == Rendering(hyphens, whole, point, frac, zeros)
    && whole != "" && AllDigits(whole)
    && AllDigits(frac) && |frac| <= 2
    && (!point ==> frac == "")
    && cents == (if hyphens > 0 then -1 else 1) * (Value(whole) * 100 + Hundredths(frac))
    && -I64_MAX <= cents <= I64_MAX
  }

  // ---------------------------------------------------------------- parse_cents reads the grammar

  lemma {:induction false} TrimStartCharSplits(s: string, c: char) returns (n: nat)
    ensures s == Repeat(c, n) + TrimStartChar(s, c)
    ensures n > 0 <==> s != "" && s[0] == c
  {
    if s != "" && s[0] == c {
      var m := TrimStartCharSplits(s[1..], c);
      n := m + 1;
      assert s == [c] + s[1..];
      assert Repeat(c, n) == [c] + Repeat(c, m);
    } else {
      n := 0;
      assert s == Repeat(c, 0) + s;
    }
  }

  lemma {:induction false} TrimStartCharDrops(n: nat, c: char, rest: string)
    requires rest == "" || rest[0] != c
    ensures TrimStartChar(Repeat(c, n) + rest, c) == rest
  {
    var s := Repeat(c, n) + rest;
    if n == 0 {
      assert s == rest;
    } else {
      assert s[1..] == Repeat(c, n - 1) + rest;
      TrimStartCharDrops(n - 1, c, rest);
    }
  }

  lemma {:induction false} TrimEndCharSplits(s: string, c: char) returns (n: nat)
    ensures s == TrimEndChar(s, c) + Repeat(c, n)
    ensures TrimEndChar(s, c) == "" || TrimEndChar(s, c)[|TrimEndChar(s, c)| - 1] != c
  {
    if s != "" && s[|s| - 1] == c {
      var m := TrimEndCharSplits(s[..|s| - 1], c);
      n := m + 1;
      assert s == s[..|s| - 1] + [c];
      assert Repeat(c, n) == Repeat(c, m) + [c];
    } else {
      n := 0;
      assert s == s + Repeat(c, 0);
    }
  }

  lemma {:induction false} TrimEndCharDrops(s: string, n: nat, c: char)
    ensures TrimEndChar(s + Repeat(c, n), c) == TrimEndChar(s, c)
  {
    var t := s + Repeat(c, n);
    if n == 0 {
      assert t == s;
    } else {
      assert t[..|t| - 1] == s + Repeat(c, n - 1);
      TrimEndCharDrops(s, n - 1, c);
    }
  }

  lemma {:induction false} SplitPointSplits(s: string)
    ensures var (whole, frac) := SplitPoint(s);
      s == whole + "." + frac || (s == whole && frac == "")
  {
    if s != "" && s[0] != '.' {
      SplitPointSplits(s[1..]);
      assert s == [s[0]] + s[1..];
    }
  }

  lemma {:induction false} SplitPointOf(whole: string, tail: string)
    requires AllDigits(whole) && (tail == "" || tail[0] == '.')
    ensures SplitPoint(whole + tail) == (whole, if tail == "" then "" else tail[1..])
  {
    var s := whole + tail;
    if whole == "" {
      assert s == tail;
    } else {
      assert IsDigit(whole[0]);
      assert s[1..] == whole[1..] + tail;
      SplitPointOf(whole[1..], tail);
      assert whole == [whole[0]] + whole[1..];
    }
  }

  lemma ValueOfTwo(s: string)
    requires AllDigits(s) && |s| <= 2
    ensures Value(s) == if |s| == 0 then 0 else if |s| == 1 then DigitValue(s[0]) else 10 * DigitValue(s[0]) + DigitValue(s[1])
  {
    if |s| == 2 {
      assert s[..1] == [s[0]];
      assert [s[0]][..0] == "";
    } else if |s| == 1 {
      assert s[..0] == "";
    }
  }

  /** No intermediate step of the arithmetic leaves the 64-bit range unless the amount itself does. */
  lemma MagnitudeExactly(whole: string, frac: string)
    requires AllDigits(whole) && AllDigits(frac) && |frac| <= 2
    ensures Magnitude(whole, frac) ==
      if whole != "" && Value(whole) * 100 + Hundredths(frac) <= I64_MAX
      then Some(Value(whole) * 100 + Hundredths(frac)) else None
  {
    if frac != "" {
      var padded := if |frac| == 1 then frac + "0" else frac;
      ValueOfTwo(padded);
    }
  }

  /** Trailing zeros never change the hundredths. */
  lemma HundredthsOfTrimmed(frac: string)
    requires AllDigits(frac) && |frac| <= 2
    ensures AllDigits(TrimEndChar(frac, '0')) && |TrimEndChar(frac, '0')| <= 2
    ensures Hundredths(TrimEndChar(frac, '0')) == Hundredths(frac)
  {
    if |frac| == 2 && frac[1] == '0' {
      assert frac[..1] == [frac[0]];
      assert [frac[0]][..0] == "";
    } else if |frac| == 1 {
      assert frac[..0] == "";
    }
  }

  lemma RenderingWithPoint(hyphens: nat, whole: string, frac: string, zeros: nat)
    ensures Rendering(hyphens, whole, true, frac, zeros)
      == Repeat('-', hyphens) + (whole + "." + (frac + Repeat('0', zeros)))
  {
    var a, d := Repeat('-', hyphens), Repeat('0', zeros);
    assert a + whole + ("." + frac + d) == a + (whole + "." + (frac + d));
  }

  /** What the parser cuts a rendering into. */
  lemma RenderingParts(text: string, hyphens: nat, whole: string, point: bool, frac: string, zeros: nat)
    requires text == Rendering(hyphens, whole, point, frac, zeros)
    requires whole != "" && AllDigits(whole) && (!point ==> frac == "")
    ensures text[0] == '-' <==> hyphens > 0
    ensures TrimStartChar(text, '-') != ""
    ensures SplitPoint(TrimStartChar(text, '-')) == (whole, if point then frac + Repeat('0', zeros) else "")
  {
    var digits := frac + Repeat('0', zeros);
    var tail := if point then "." + digits else "";
    if point {
      RenderingWithPoint(hyphens, whole, frac, zeros);
      assert whole + "." + digits == whole + tail;
    } else {
      assert Repeat('-', hyphens) + whole + "" == Repeat('-', hyphens) + (whole + "");
    }
    assert IsDigit(whole[0]);
    TrimStartCharDrops(hyphens, '-', whole + tail);
    SplitPointOf(whole, tail);
    assert point ==> tail[1..] == digits;
  }

  lemma ParseReadsRendering(text: string, cents: int, hyphens: nat, whole: string, point: bool, frac: string, zeros: nat)
    requires DenotesAs(text, cents, hyphens, whole, point, frac, zeros)
    ensures ParseCompact(text) == Some(cents)
  {
    RenderingParts(text, hyphens, whole, point, frac, zeros);
    var rawFrac := if point then frac + Repeat('0', zeros) else "";
    assert TrimEndChar(rawFrac, '0') == TrimEndChar(frac, '0') by {
      TrimEndCharDrops(frac, zeros, '0');
    }
    PartsValue(hyphens > 0, whole, rawFrac, frac, TrimEndChar(frac, '0'), Value(whole) * 100 + Hundredths(frac));
  }

  lemma PartsValue(negative: bool, whole: string, rawFrac: string, frac: string, trimmed: string, n: int)
    requires whole != "" && AllDigits(whole) && AllDigits(frac) && |frac| <= 2
    requires TrimEndChar(rawFrac, '0') == TrimEndChar(frac, '0') == trimmed
    requires n == Value(whole) * 100 + Hundredths(frac) && n <= I64_MAX
    ensures ParseParts(negative, whole, rawFrac) == Some(if negative then -n else n)
  {
    MagnitudeOfTrimmed(whole, frac, trimmed, n);
    PartsOfTrimmed(negative, whole, rawFrac, trimmed, n);
  }

  lemma MagnitudeOfTrimmed(whole: string, frac: string, trimmed: string, n: int)
    requires whole != "" && AllDigits(whole) && AllDigits(frac) && |frac| <= 2
    requires trimmed == TrimEndChar(frac, '0')
    requires n == Value(whole) * 100 + Hundredths(frac) && n <= I64_MAX
    ensures AllDigits(trimmed) && |trimmed| <= 2
    ensures Magnitude(whole, trimmed) == Some(n)
  {
    HundredthsOfTrimmed(frac);
    MagnitudeExactly(whole, trimmed);
  }

  lemma PartsOfTrimmed(negative: bool, whole: string, rawFrac: string, trimmed: string, n: int)
    requires AllDigits(whole) && AllDigits(trimmed) && |trimmed| <= 2
    requires TrimEndChar(rawFrac, '0') == trimmed
    requires Magnitude(whole, trimmed) == Some(n)
    ensures ParseParts(negative, whole, rawFrac) == Some(if negative then -n else n)
  {
  }

  lemma ParseIsDenoted(text: string)
    requires ParseCompact(text).Some?
    ensures Denotes(text, ParseCompact(text).value)
  {
    var hyphens := TrimStartCharSplits(text, '-');
    var unsigned := TrimStartChar(text, '-');
    var (whole, rawFrac) := SplitPoint(unsigned);
    SplitPointSplits(unsigned);
    var frac := TrimEndChar(rawFrac, '0');
    var zeros := TrimEndCharSplits(rawFrac, '0');
    MagnitudeExactly(whole, frac);
    var point := unsigned == whole + "." + rawFrac;
    if point {
      RenderingWithPoint(hyphens, whole, frac, zeros);
    } else {
      assert frac == "";
      assert text == Repeat('-', hyphens) + whole + "";
    }
    assert DenotesAs(text, ParseCompact(text).value, hyphens, whole, point, frac, zeros);
  }

  /** `parse_cents` returns an amount if and only if its filtered text denotes it; the text
      therefore denotes at most one amount, and the amount fits in 64 bits with its negation. */
  lemma ParseCentsExactly(cleaned: string, cents: int)
    ensures ParseCents(cleaned) == Some(cents) <==> Denotes(Filter(cleaned, IsNumeric), cents)
  {
    var text := Filter(cleaned, IsNumeric);
    if ParseCompact(text) == Some(cents) {
      ParseIsDenoted(text);
    }
    if Denotes(text, cents) {
      var hyphens: nat, whole, point, frac, zeros: nat :| DenotesAs(text, cents, hyphens, whole, point, frac, zeros);
      ParseReadsRendering(text, cents, hyphens, whole, point, frac, zeros);
    }
  }

  // ---------------------------------------------------------------- parse_money and display

  predicate IsAmountChar(c: char) {
    IsDigit(c) || c in {'.', '-', '$', ',', ' ', '\U{A0}'}
  }

  function OfCents(raw: string, cents: Option<int>): MoneyValue {
    match cents
    case None => MoneyValue(raw, Unparseable, None)
    case Some(n) => MoneyValue(raw, if n == 0 then Zero else Exact, cents)
  }

  function ParseTrimmed(raw: string, trimmed: string): (r: MoneyValue)
    ensures r.state == Exact ==> r == OfCents(raw, ParseCents(Filter(trimmed, IsAmountChar)))
  {
    var lower := Lower(trimmed);
    if lower == "n/a" || lower == "na" || lower == "-" then MoneyValue(raw, NotApplicable, None)
    else if Contains(lower, "various") then MoneyValue(raw, Various, None)
    else if Contains(lower, "idiq") || Contains(lower, "ceiling") then MoneyValue(raw, IdiqCeiling, ParseCents(lower))
    else OfCents(raw, ParseCents(Filter(trimmed, IsAmountChar)))
  }

  function ParseMoney(raw: string): (r: MoneyValue)
    ensures r.state == Exact ==> r.cents.Some? && r.cents.value != 0
  {
    var trimmed := Trim(raw);
    if trimmed == "" then MoneyValue(raw, Unknown, None) else ParseTrimmed(raw, trimmed)
  }

  function Abs(n: int): nat {
    if n < 0 then -n else n
  }

  /** Division and remainder as Rust has them, truncating toward zero. */
  function TruncDiv(n: int, d: int): int
    requires d > 0
  {
    if n < 0 then -(-n / d) else n / d
  }

  function TruncRem(n: int, d: int): int
    requires d > 0
  {
    n - d * TruncDiv(n, d)
  }

  function IntText(n: int): string {
    if n < 0 then "-" + Decimal(-n) else Decimal(n)
  }

  function TwoDigits(n: nat): string {
    if n < 10 then "0" + Decimal(n) else Decimal(n)
  }

  function Label(state: MoneyState): string {
    match state
    case Exact => "exact"
    case Zero => "zero"
    case NotApplicable => "not applicable"
    case Various => "various"
    case IdiqCeiling => "IDIQ/ceiling"
    case Unknown => "unknown"
    case Unparseable => "unparseable"
  }

  function DisplayBody(cents: int): string {
    IntText(TruncDiv(cents, 100)) + "." + TwoDigits(Abs(TruncRem(cents, 100)))
  }

  function Display(m: MoneyValue): string {
    if m.state != Exact then Label(m.state)
    else match m.cents
      case Some(cents) => "$" + DisplayBody(cents)
      case None => m.raw
  }

  // ---------------------------------------------------------------- round trip

  /** The characters that `Display` writes for an exact amount. */
  predicate IsDisplayChar(c: char) {
    IsDigit(c) || c == '$' || c == '.' || c == '-'
  }

  lemma ContainsNeedsFirst(s: string, part: string)
    requires part != "" && All(s, IsDisplayChar) && !IsDisplayChar(part[0])
    ensures !Contains(s, part)
  {
    forall i: nat
      ensures !OccursAt(s, part, i)
    {
      assert i + |part| <= |s| ==> s[i..i + |part|][0] == s[i];
    }
  }

  lemma TrimIsIdentity(s: string)
    requires s != "" && !IsWhitespace(s[0]) && !IsWhitespace(s[|s| - 1])
    ensures Trim(s) == s
  {
  }

  lemma LowerIsIdentity(s: string)
    requires All(s, IsDisplayChar)
    ensures Lower(s) == s
  {
    forall i | 0 <= i < |s|
      ensures LowerChar(s[i]) == s[i]
    {
      assert IsDisplayChar(s[i]);
    }
  }

  /** A text of display characters takes none of the special readings. */
  lemma ParseTrimmedOfDisplay(raw: string)
    requires All(raw, IsDisplayChar) && |raw| > 1
    ensures ParseTrimmed(raw, raw) == OfCents(raw, ParseCents(Filter(raw, IsAmountChar)))
  {
    LowerIsIdentity(raw);
    ContainsNeedsFirst(raw, "various");
    ContainsNeedsFirst(raw, "idiq");
    ContainsNeedsFirst(raw, "ceiling");
    assert IsDisplayChar(raw[0]) && IsDisplayChar(raw[1]);
  }

  lemma DollarsAreDisplayChars(body: string)
    requires All(body, IsNumeric)
    ensures All("$" + body, IsDisplayChar) && All("$" + body, IsAmountChar)
  {
    var raw := "$" + body;
    forall i | 0 <= i < |raw|
      ensures IsDisplayChar(raw[i]) && IsAmountChar(raw[i])
    {
      assert i > 0 ==> IsNumeric(body[i - 1]);
    }
  }

  lemma CentsOfDollars(body: string)
    requires All(body, IsNumeric)
    ensures ParseCents(Filter("$" + body, IsAmountChar)) == ParseCompact(body)
  {
    DollarsAreDisplayChars(body);
    FilterKeepsAll("$" + body, IsAmountChar);
    FilterKeepsAll(body, IsNumeric);
    FilterDropsFirst('$', body, IsNumeric);
  }

  /** A dollar sign followed by an amount text is read as that amount. */
  lemma ParseMoneyOfAmount(body: string, cents: int)
    requires body != "" && All(body, IsNumeric) && Denotes(body, cents) && IsDigit(body[|body| - 1])
    ensures ParseMoney("$" + body) == OfCents("$" + body, Some(cents))
  {
    var raw := "$" + body;
    CentsOfDollars(body);
    DollarsAreDisplayChars(body);
    FilterKeepsAll(body, IsNumeric);
    ParseCentsExactly(body, cents);
    TrimIsIdentity(raw);
    ParseTrimmedOfDisplay(raw);
  }

  lemma {:induction false} DecimalLength(n: nat)
    ensures n < 10 ==> |Decimal(n)| == 1
    ensures 10 <= n < 100 ==> |Decimal(n)| == 2
  {
  }

  lemma TwoDigitsIs(n: nat)
    requires n < 100
    ensures |TwoDigits(n)| == 2 && AllDigits(TwoDigits(n)) && Hundredths(TwoDigits(n)) == n
  {
    DecimalLength(n);
    ValueOfTwo(Decimal(n));
    if n < 10 {
      assert TwoDigits(n)[0] == '0' && TwoDigits(n)[1] == Decimal(n)[0];
    }
  }

  /** The amount that the display of `cents` stands for: the sign is lost between -99 and -1. */
  function Shown(cents: int): int {
    if -99 <= cents <= -1 then -cents else cents
  }

  lemma DisplayRendering(units: int, frac: string)
    ensures IntText(units) + "." + frac == Rendering(if units < 0 then 1 else 0, Decimal(Abs(units)), true, frac, 0)
  {
    var whole := Decimal(Abs(units));
    RenderingWithPoint(if units < 0 then 1 else 0, whole, frac, 0);
    assert frac + Repeat('0', 0) == frac;
    if units < 0 {
      assert Repeat('-', 1) == "-";
      assert "-" + whole + "." + frac == "-" + (whole + "." + frac);
    } else {
      assert Repeat('-', 0) + (whole + "." + frac) == whole + "." + frac;
    }
  }

  lemma DisplayBodyDenotes(cents: int)
    requires -I64_MAX <= cents <= I64_MAX
    ensures Denotes(DisplayBody(cents), Shown(cents))
    ensures var body := DisplayBody(cents); body != "" && All(body, IsNumeric) && IsDigit(body[|body| - 1])
  {
    var units, rest := TruncDiv(cents, 100), Abs(TruncRem(cents, 100));
    assert rest < 100 && Abs(cents) == 100 * Abs(units) + rest;
    TwoDigitsIs(rest);
    var whole, frac := Decimal(Abs(units)), TwoDigits(rest);
    var hyphens := if units < 0 then 1 else 0;
    var body := DisplayBody(cents);
    DisplayRendering(units, frac);
    assert DenotesAs(body, Shown(cents), hyphens, whole, true, frac, 0);
  }

  lemma DisplayReadsAs(raw: string, cents: int)
    requires -I64_MAX <= cents <= I64_MAX
    ensures var text := Display(MoneyValue(raw, Exact, Some(cents)));
      ParseMoney(text) == OfCents(text, Some(Shown(cents)))
  {
    DisplayBodyDenotes(cents);
    ParseMoneyOfAmount(DisplayBody(cents), Shown(cents));
    var text := Display(MoneyValue(raw, Exact, Some(cents)));
    assert text == "$" + DisplayBody(cents);
  }

  /** An exact amount is never zero and always within the 64-bit range, with its negation. */
  lemma ExactIsInRange(raw: string)
    requires ParseMoney(raw).state == Exact
    ensures -I64_MAX <= ParseMoney(raw).cents.value <= I64_MAX && ParseMoney(raw).cents.value != 0
  {
    ParseCentsExactly(Filter(Trim(raw), IsAmountChar), ParseMoney(raw).cents.value);
  }

  /** Reading back the display of an exact amount gives the same exact amount if and only if
      the amount is not a negative fraction of a dollar. */
  lemma DisplayRoundTripsExactly(raw: string)
    requires ParseMoney(raw).state == Exact
    ensures var m := ParseMoney(raw);
      var back := ParseMoney(Display(m));
      (back.state == m.state && back.cents == m.cents) <==> !(-99 <= m.cents.value <= -1)
  {
    ExactIsInRange(raw);
    DisplayReadsAs(ParseMoney(raw).raw, ParseMoney(raw).cents.value);
  }

  /** A raw text whose amount is read exactly and whose display changes it: $-0.50. */
  lemma FiftyCentsDebitLosesItsSign() returns (raw: string)
    ensures ParseMoney(raw).state == Exact && ParseMoney(raw).cents == Some(-50)
    ensures ParseMoney(Display(ParseMoney(raw))).cents == Some(50)
  {
    var body := Rendering(1, "0", true, "50", 0);
    assert body == Repeat('-', 1) + "0" + "." + "50";
    assert DenotesAs(body, -50, 1, "0", true, "50", 0) by {
      ValueOfTwo("0");
    }
    raw := "$" + body;
    ParseMoneyOfAmount(body, -50);
    DisplayReadsAs(raw, -50);
  }
}
