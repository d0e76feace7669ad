/** Unlock windows as a person types them: crates/heyl-app/src/session/settings.rs:269-312. */
module Settings {
  import Text

  const U32_MAX: nat := 0xFFFF_FFFF
  const U64_MAX: nat := 0xFFFF_FFFF_FFFF_FFFF
  const MIN_TIMEOUT_MINUTES: nat := 1

  datatype Timeout = Minutes(n: nat) | BadSettingValue | TimeoutTooShort

  /** Unicode White_Space, which `trim` removes. */
  predicate IsSpace(c: char) {
    '\t' <= c <= '\r'
    || c in {' ', '\U{85}', '\U{A0}', '\U{1680}', '\U{2028}', '\U{2029}', '\U{202F}', '\U{205F}', '\U{3000}'}
    || '\U{2000}' <= c <= '\U{200A}'
  }

  lemma SpaceIs(c: char)
    ensures IsSpace(c) <==>
      var n := c as int;
      || 0x9 <= n <= 0xD || n == 0x20 || n == 0x85 || n == 0xA0 || n == 0x1680 || 0x2000 <= n <= 0x200A
      || n == 0x2028 || n == 0x2029 || n == 0x202F || n == 0x205F || n == 0x3000
  {
  }

  predicate AllSpace(s: string) { forall i :: 0 <= i < |s| ==> IsSpace(s[i]) }

  function TrimStart(s: string): (t: string)
    ensures t == "" || !IsSpace(t[0])
  {
    Text.DropWhile(IsSpace, s)
  }

  function Trim(s: string): (t: string) {
    TrimEnd(TrimStart(s))
  }

  function TrimEnd(s: string): (t: string)
    ensures t == "" || !IsSpace(t[|t| - 1])
  {
    if s != "" && IsSpace(s[|s| - 1]) then TrimEnd(s[..|s| - 1]) else s
  }

  /** `parse::<u64>`: an optional plus, then digits, at most the 64-bit maximum. */
  function ParseU64(s: string): (n: int)
    ensures n == -1 || 0 <= n <= U64_MAX
  {
    var digits := if s != "" && s[0] == '+' then s[1..] else s;
    if digits == "" || !Text.AllDigits(digits) || Text.Value(digits) > U64_MAX then -1 else Text.Value(digits)
  }

  /** `90s`, `30m`, `8h`, or a bare number read as minutes. */
  function Split(value: string): (string, nat) {
    if value == "" then (value, 60)
    else
      var last, rest := value[|value| - 1], value[..|value| - 1];
      if last == 's' then (rest, 1)
      else if last == 'm' then (rest, 60)
      else if last == 'h' then (rest, 3_600)
      else (value, 60)
  }

  function ParseTimeout(value: string): Timeout {
    var (number, scale) := Split(value);
    var n := ParseU64(Trim(number));
    if n == -1 || n * scale > U64_MAX then BadSettingValue
    else
      var minutes := n * scale / 60;
      if minutes > U32_MAX then BadSettingValue
      else if minutes < MIN_TIMEOUT_MINUTES then TimeoutTooShort
      else Minutes(minutes)
  }

  function RenderTimeout(minutes: nat): string {
    if minutes % 60 == 0 then Text.Decimal(minutes / 60) + "h" else Text.Decimal(minutes) + "m"
  }

  // ---- the grammar, independently

  datatype Unit = Seconds | MinutesUnit | Hours | Bare {
    function Suffix(): string {
      match this case Seconds => "s" case MinutesUnit => "m" case Hours => "h" case Bare => ""
    }

    function Scale(): nat {
      match this case Seconds => 1 case MinutesUnit => 60 case Hours => 3_600 case Bare => 60
    }
  }

  datatype Spelling = Spelling(before: string, plus: bool, digits: string, after: string, unit: Unit) {
    predicate Valid() { AllSpace(before) && AllSpace(after) && digits != "" && Text.AllDigits(digits) }

    function Core(): string { (if plus then "+" else "") + digits }

    function Number(): string { before + (Core() + after) }

    function Text_(): string { Number() + unit.Suffix() }

    /** What the spelling says, in seconds. */
    function Duration(): nat
      requires Valid()
    {
      Text.Value(digits) * unit.Scale()
    }
  }

  lemma {:induction false} TrimStartOf(before: string, core: string)
    requires AllSpace(before) && (core == "" || !IsSpace(core[0]))
    ensures TrimStart(before + core) == core
  {
    if before == "" {
      assert before + core == core;
    } else {
      assert (before + core)[1..] == before[1..] + core;
      TrimStartOf(before[1..], core);
    }
  }

  lemma {:induction false} TrimEndOf(core: string, after: string)
    requires AllSpace(after) && (core == "" || !IsSpace(core[|core| - 1]))
    ensures TrimEnd(core + after) == core
  {
    if after == "" {
      assert core + after == core;
    } else {
      assert (core + after)[..|core + after| - 1] == core + after[..|after| - 1];
      TrimEndOf(core, after[..|after| - 1]);
    }
  }

  lemma {:induction false} TrimStartSplits(s: string) returns (before: string)
    ensures AllSpace(before) && s == before + TrimStart(s)
  {
    if s != "" && IsSpace(s[0]) {
      var rest := TrimStartSplits(s[1..]);
      before := [s[0]] + rest;
    } else {
      before := "";
    }
  }

  lemma {:induction false} TrimEndSplits(s: string) returns (after: string)
    ensures AllSpace(after) && s == TrimEnd(s) + after
  {
    if s != "" && IsSpace(s[|s| - 1]) {
      var rest := TrimEndSplits(s[..|s| - 1]);
      after := rest + [s[|s| - 1]];
      assert s == s[..|s| - 1] + [s[|s| - 1]];
    } else {
      after := "";
    }
  }

  lemma NumberParses(p: Spelling)
    requires p.Valid()
    ensures ParseU64(Trim(p.Number())) == if Text.Value(p.digits) <= U64_MAX then Text.Value(p.digits) else -1
  {
    var core := p.Core();
    assert core[0] == '+' || Text.IsDigit(core[0]);
    assert Text.IsDigit(core[|core| - 1]);
    TrimStartOf(p.before, core + p.after);
    TrimEndOf(core, p.after);
    if p.plus { assert core[1..] == p.digits; } else { assert core == p.digits; }
  }

  lemma SplitSpelling(p: Spelling)
    requires p.Valid()
    ensures Split(p.Text_()) == (p.Number(), p.unit.Scale())
  {
    var s := p.Text_();
    if p.unit == Bare {
      assert s == p.Number();
      LastOfNumber(p);
    } else {
      assert s[..|s| - 1] == p.Number();
    }
  }

  lemma LastOfNumber(p: Spelling)
    requires p.Valid()
    ensures var n := p.Number(); n != "" && n[|n| - 1] !in {'s', 'm', 'h'}
  {
    var n := p.Number();
    if p.after != "" {
      assert n[|n| - 1] == p.after[|p.after| - 1];
    } else {
      assert n[|n| - 1] == p.digits[|p.digits| - 1];
    }
  }

  /** How a spelled value is read: its whole minutes, if the seconds fit 64 bits and the minutes 32. */
  lemma SpellingParses(p: Spelling)
    requires p.Valid()
    ensures ParseTimeout(p.Text_()) ==
      if Text.Value(p.digits) > 18_446_744_073_709_551_615 || p.Duration() > 18_446_744_073_709_551_615
         || p.Duration() / 60 > 4_294_967_295 then BadSettingValue
      else if p.Duration() < 60 then TimeoutTooShort
      else Minutes(p.Duration() / 60)
  {
    SplitSpelling(p);
    NumberParses(p);
  }

  lemma SplitJoins(value: string) returns (unit: Unit)
    ensures value == Split(value).0 + unit.Suffix() && unit.Scale() == Split(value).1
  {
    if value == "" || value[|value| - 1] !in {'s', 'm', 'h'} {
      unit := Bare;
    } else {
      var last := value[|value| - 1];
      assert value == value[..|value| - 1] + [last];
      unit := if last == 's' then Seconds else if last == 'm' then MinutesUnit else Hours;
    }
  }

  lemma CoreIsSpelled(core: string) returns (plus: bool, digits: string)
    requires ParseU64(core) != -1
    ensures core == (if plus then "+" else "") + digits && digits != "" && Text.AllDigits(digits)
  {
    plus := core != "" && core[0] == '+';
    digits := if plus then core[1..] else core;
  }

  lemma TrimSplits(s: string) returns (before: string, after: string)
    ensures AllSpace(before) && AllSpace(after) && s == before + (Trim(s) + after)
  {
    before := TrimStartSplits(s);
    after := TrimEndSplits(TrimStart(s));
  }

  lemma NumberIsSpelled(number: string, unit: Unit) returns (p: Spelling)
    requires ParseU64(Trim(number)) != -1
    ensures p.Valid() && p.Number() == number && p.unit == unit
  {
    var plus, digits := CoreIsSpelled(Trim(number));
    var before, after := TrimSplits(number);
    p := Spelling(before, plus, digits, after, unit);
    assert p.Core() == Trim(number);
  }

  /** Only what the grammar spells is read at all. */
  lemma AcceptedIsSpelled(value: string) returns (p: Spelling)
    requires ParseTimeout(value) != BadSettingValue
    ensures p.Valid() && p.Text_() == value
  {
    var unit := SplitJoins(value);
    p := NumberIsSpelled(Split(value).0, unit);
  }

  /** An accepted value denotes its minutes, rounded down to the minute. */
  lemma AcceptedMinutes(value: string) returns (p: Spelling)
    requires ParseTimeout(value).Minutes?
    ensures p.Valid() && p.Text_() == value
    ensures var m := ParseTimeout(value).n;
      1 <= m <= 4_294_967_295 && 60 * m <= p.Duration() < 60 * m + 60
  {
    p := AcceptedIsSpelled(value);
    SpellingParses(p);
  }

  lemma WholeHours(minutes: nat)
    requires minutes % 60 == 0
    ensures minutes / 60 * 3_600 == minutes * 60
  {
  }

  lemma DecimalParses(n: nat, unit: Unit, minutes: nat)
    requires n * unit.Scale() == minutes * 60 && n <= minutes && 1 <= minutes <= U32_MAX
    ensures ParseTimeout(Text.Decimal(n) + unit.Suffix()) == Minutes(minutes)
  {
    hide ParseTimeout, Text.Decimal, Text.Value;
    var p := Spelling("", false, Text.Decimal(n), "", unit);
    assert p.Text_() == Text.Decimal(n) + unit.Suffix();
    assert p.Duration() == minutes * 60;
    SpellingParses(p);
  }

  /** What is printed for a window is read back as that window. */
  lemma RenderParses(minutes: nat)
    requires 1 <= minutes <= 4_294_967_295
    ensures ParseTimeout(RenderTimeout(minutes)) == Minutes(minutes)
  {
    if minutes % 60 == 0 {
      WholeHours(minutes);
      DecimalParses(minutes / 60, Hours, minutes);
    } else {
      DecimalParses(minutes, MinutesUnit, minutes);
    }
  }

  lemma TwoDigits(s: string)
    requires |s| == 2 && Text.AllDigits(s)
    ensures Text.Value(s) == 10 * Text.DigitValue(s[0]) + Text.DigitValue(s[1])
  {
    assert s[..1][..0] == "" && s[..1][0] == s[0];
    assert Text.Value(s[..1]) == Text.DigitValue(s[0]);
  }

  /** Windows as they are typed: seconds, minutes, hours, and a bare number of minutes. */
  lemma TypedWindows()
    ensures ParseTimeout("90s") == Minutes(1) && ParseTimeout("30m") == Minutes(30)
    ensures ParseTimeout("12h") == Minutes(720) && ParseTimeout(" +15 ") == Minutes(15)
    ensures ParseTimeout("30s") == TimeoutTooShort && ParseTimeout("m") == BadSettingValue
  {
    hide ParseTimeout;
    Typed("90s", "", false, "90", "", Seconds);
    Typed("30m", "", false, "30", "", MinutesUnit);
    Typed("12h", "", false, "12", "", Hours);
    Typed(" +15 ", " ", true, "15", " ", Bare);
    Typed("30s", "", false, "30", "", Seconds);
    NoNumber();
  }

  lemma NoNumber()
    ensures ParseTimeout("m") == BadSettingValue
  {
    assert Split("m").0 == "" && Trim("") == "" && ParseU64("") == -1;
  }

  lemma Typed(value: string, before: string, plus: bool, digits: string, after: string, unit: Unit)
    requires AllSpace(before) && AllSpace(after) && |digits| == 2 && Text.AllDigits(digits)
    requires value == before + ((if plus then "+" else "") + digits + after) + unit.Suffix()
    ensures var n := 10 * Text.DigitValue(digits[0]) + Text.DigitValue(digits[1]);
      ParseTimeout(value) == if n * unit.Scale() / 60 < 1 then TimeoutTooShort else Minutes(n * unit.Scale() / 60)
  {
    var p := Spelling(before, plus, digits, after, unit);
    TwoDigits(digits);
    SpellingParses(p);
  }

  /** Whole hours are printed as hours, anything else as minutes. */
  lemma PrintedWindows(n: nat)
    ensures RenderTimeout(60 * n) == Text.Decimal(n) + "h"
    ensures n % 60 != 0 ==> RenderTimeout(n) == Text.Decimal(n) + "m"
    ensures RenderTimeout(480) == "8h" && RenderTimeout(90) == "90m"
  {
    assert 60 * n / 60 == n;
    assert Text.Decimal(8) == "8" && Text.Decimal(9) == "9";
    assert Text.Decimal(90) == "90";
  }
}
