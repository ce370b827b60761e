/**
 * The maximum-lifeline admission rule: given the change-log and diagram
 * statistics and the configured `lifeline.max`, a change is admitted unless
 * the number of lifelines the diagram would end up with exceeds the maximum.
 * Java `int` arithmetic (32-bit, wrapping) and `Integer.valueOf` parsing are
 * written out.
 */
module LifelineRule {
  import opened Wrappers

  // ---------------------------------------------------------------------------
  // 32-bit integers.

  const Modulus: int := 0x1_0000_0000

  /** A Java `int`. */
  type Int32 = x: int | -0x8000_0000 <= x < 0x8000_0000

  /** The Java `int` congruent to `x` modulo 2^32: the result of wrapping arithmetic. */
  function Wrap32(x: int): (r: Int32)
    ensures (x - r) % Modulus == 0
  {
    var m := x % Modulus;
    if m >= 0x8000_0000 then m - Modulus else m
  }

  /** A value already in range is not changed by wrapping. */
  lemma WrapInRange(x: int)
    requires -0x8000_0000 <= x < 0x8000_0000
    ensures Wrap32(x) == x
  {
  }

  lemma ModOfShift(x: int, q: int)
    ensures (x + Modulus * q) % Modulus == x % Modulus
  {
  }

  /** Wrapping an intermediate result does not change the wrapped final result. */
  lemma WrapThenAdd(a: int, b: int)
    ensures Wrap32(Wrap32(a) + b) == Wrap32(a + b)
  {
    var w := Wrap32(a);
    var q := (a - w) / Modulus;
    assert a == w + Modulus * q;
    ModOfShift(w + b, q);
  }

  // ---------------------------------------------------------------------------
  // Integer.valueOf on the configured string.

  predicate IsDigit(ch: char) {
    '0' <= ch <= '9'
  }

  predicate AllDigits(s: string) {
    forall k :: 0 <= k < |s| ==> IsDigit(s[k])
  }

  /** The number a run of decimal digits denotes, most significant first. */
  function DigitsValue(s: string): nat
    requires AllDigits(s)
    decreases |s|
  {
    if |s| == 0 then 0
    else DigitsValue(s[..|s| - 1]) * 10 + (s[|s| - 1] as int - '0' as int)
  }

  /**
   * `Integer.valueOf(String)`: an optional `+` or `-` sign followed by at
   * least one decimal digit, denoting a value that fits a Java `int`; a null
   * string or anything else is a `NumberFormatException` (None).
   */
  function ParseInt(s: Option<string>): (r: Option<Int32>)
    ensures r.Some? ==> s.Some? && |s.value| > 0
    ensures s.Some? && |s.value| > 0 && AllDigits(s.value) ==>
              (r.Some? <==> DigitsValue(s.value) < 0x8000_0000) && (r.Some? ==> r.value == DigitsValue(s.value))
  {
    match s
    case None => None
    case Some(str) =>
      if |str| == 0 then None
      else
        var negative := str[0] == '-';
        var digits := if str[0] == '-' || str[0] == '+' then str[1..] else str;
        if |digits| == 0 || !AllDigits(digits) then None
        else
          var value: int := if negative then 0 - DigitsValue(digits) else DigitsValue(digits);
          if -0x8000_0000 <= value < 0x8000_0000 then Some(value) else None
  }

  /** The decimal digits of a natural number, without leading zeros. */
  function NatToDigits(n: nat): (s: string)
    ensures |s| > 0 && AllDigits(s)
  {
    if n < 10 then [('0' as int + n) as char]
    else NatToDigits(n / 10) + [('0' as int + n % 10) as char]
  }

  /** `Integer.toString`: a minus sign for negative values, then the digits. */
  function IntToString(n: int): (s: string)
    ensures |s| > 0
  {
    if n < 0 then "-" + NatToDigits(-n) else NatToDigits(n)
  }

  lemma {:induction false} DigitsOfNat(n: nat)
    ensures DigitsValue(NatToDigits(n)) == n
  {
    var s := NatToDigits(n);
    if n >= 10 {
      DigitsOfNat(n / 10);
      assert s[..|s| - 1] == NatToDigits(n / 10);
    }
  }

  /** Parsing the decimal form of any Java `int` gives the number back. */
  lemma ParseShown(n: Int32)
    ensures ParseInt(Some(IntToString(n))) == Some(n)
  {
    var s := IntToString(n);
    if n < 0 {
      var d := NatToDigits(0 - n);
      DigitsOfNat(0 - n);
      assert s == "-" + d;
      assert s[0] == '-' && s[1..] == d;
    } else {
      DigitsOfNat(n);
    }
  }

  /** Whatever parses is a sign-optional run of at least one decimal digit. */
  lemma ParsedIsNumeral(s: string)
    requires ParseInt(Some(s)).Some?
    ensures var start := if s[0] == '-' || s[0] == '+' then 1 else 0;
            start < |s| && forall k :: start <= k < |s| ==> IsDigit(s[k])
  {
    var start := if s[0] == '-' || s[0] == '+' then 1 else 0;
    var digits := s[start..];
    forall k | start <= k < |s|
      ensures IsDigit(s[k])
    {
      assert s[k] == digits[k - start];
    }
  }

  /**
   * Values outside the Java `int` range are refused, with or without a sign;
   * only the negative side reaches 2^31.
   */
  lemma ParseRejectsOutOfRange(digits: string)
    requires |digits| > 0 && AllDigits(digits) && DigitsValue(digits) >= 0x8000_0000
    ensures ParseInt(Some(digits)) == None
    ensures ParseInt(Some("+" + digits)) == None
    ensures DigitsValue(digits) > 0x8000_0000 ==> ParseInt(Some("-" + digits)) == None
    ensures DigitsValue(digits) == 0x8000_0000 ==> ParseInt(Some("-" + digits)) == Some(-0x8000_0000)
  {
    assert ("+" + digits)[0] == '+' && ("+" + digits)[1..] == digits;
    assert ("-" + digits)[0] == '-' && ("-" + digits)[1..] == digits;
  }

  // ---------------------------------------------------------------------------
  // The rule.

  /** The counts the rule reads from the statistics holder. */
  datatype Stats = Stats(
    lifelinesToAdd: Int32,     // change-log stats: lifeline additions
    lifelinesToDelete: Int32,  // change-log stats: lifeline removals
    currentLifelines: Int32,   // diagram graph stats: lifelines now
    addedLifelines: Int32,     // change-log stats: added lifelines
    removedLifelines: Int32)   // change-log stats: removed lifelines

  /** Reading `lifeline.max`: the property's value (null when unset), or a configuration failure. */
  datatype Config = Accessible(value: Option<string>) | Inaccessible

  /** The change's new value, a call node or null; the rejection log reads its name. */
  datatype NewValue = NullValue | NodeValue(name: string)

  datatype Failure =
    | SynchRuleError(message: string, ruleClass: string)
    | NullPointer

  /** What `validateChange` does: return a verdict or throw. */
  datatype Verdict = Returned(admitted: bool) | Thrown(failure: Failure)

  const RuleClass: string := "com.mlyncar.dp.synch.rule.lifeline.MaximumLifelineRule"
  const IncorrectValue: string := "Unable to execute rule. Configuration directive contains incorrect value."
  const NotAccessible: string := "Unable to execute rule. Configuration is not accessible."

  /** The lifeline count after the pending changes, in exact arithmetic. */
  function Projected(s: Stats): int {
    s.currentLifelines + s.addedLifelines + s.lifelinesToAdd - s.removedLifelines - s.lifelinesToDelete
  }

  /** Four wrapping steps, left to right, wrap the exact result once. */
  lemma WrapChain(a: int, b: int, c: int, d: int, e: int)
    ensures Wrap32(Wrap32(Wrap32(Wrap32(a + b) + c) - d) - e) == Wrap32(a + b + c - d - e)
  {
    WrapThenAdd(a + b, c);
    WrapThenAdd(a + b + c, -d);
    WrapThenAdd(a + b + c - d, -e);
  }

  /** The same count evaluated left to right in Java `int` arithmetic. */
  function Total(s: Stats): (r: Int32)
    ensures r == Wrap32(Projected(s))
  {
    WrapChain(s.currentLifelines, s.addedLifelines, s.lifelinesToAdd, s.removedLifelines, s.lifelinesToDelete);
    var sum := Wrap32(s.currentLifelines + s.addedLifelines);
    var withAdditions := Wrap32(sum + s.lifelinesToAdd);
    var withRemoved := Wrap32(withAdditions - s.removedLifelines);
    Wrap32(withRemoved - s.lifelinesToDelete)
  }

  /**
   * `validateChange`: read and parse the maximum, then reject when the
   * projected count exceeds it. On rejection the log message reads the
   * name of the change's new value, dereferencing null when there is none.
   */
  function ValidateChange(newValue: NewValue, stats: Stats, config: Config): (r: Verdict)
    ensures config.Inaccessible? ==> r == Thrown(SynchRuleError(NotAccessible, RuleClass))
    ensures config.Accessible? && ParseInt(config.value).None? ==>
              r == Thrown(SynchRuleError(IncorrectValue, RuleClass))
    ensures r.Thrown? && r.failure.SynchRuleError? ==> r.failure.ruleClass == RuleClass
    ensures r == Returned(true) <==>
              config.Accessible? && ParseInt(config.value).Some? && Total(stats) <= ParseInt(config.value).value
    ensures config.Accessible? && ParseInt(config.value).Some? && Total(stats) > ParseInt(config.value).value ==>
              r == match newValue
                   case NodeValue(_) => Returned(false)
                   case NullValue => Thrown(NullPointer)
  {
    match config
    case Inaccessible => Thrown(SynchRuleError(NotAccessible, RuleClass))
    case Accessible(value) =>
      match ParseInt(value)
      case None => Thrown(SynchRuleError(IncorrectValue, RuleClass))
      case Some(maxLifelines) =>
        if Total(stats) > maxLifelines then
          match newValue
          case NullValue => Thrown(NullPointer)
          case NodeValue(_) => Returned(false)
        else Returned(true)
  }

  /** Counts small enough that no Java `int` step wraps around. */
  predicate Moderate(s: Stats) {
    && 0 <= s.lifelinesToAdd < 0x1000_0000 && 0 <= s.lifelinesToDelete < 0x1000_0000
    && 0 <= s.currentLifelines < 0x1000_0000 && 0 <= s.addedLifelines < 0x1000_0000
    && 0 <= s.removedLifelines < 0x1000_0000
  }

  lemma ModerateTotal(s: Stats)
    requires Moderate(s)
    ensures Total(s) == Projected(s)
  {
    WrapInRange(Projected(s));
  }

  /**
   * For moderate counts and a change bringing a node, the rule admits exactly
   * when the projected count is at most the maximum and rejects exactly when
   * it exceeds it; equality is admitted.
   */
  lemma AdmitsUpToMaximum(name: string, stats: Stats, text: string, max: Int32)
    requires Moderate(stats) && ParseInt(Some(text)) == Some(max)
    ensures (ValidateChange(NodeValue(name), stats, Accessible(Some(text))) == Returned(true))
              == (Projected(stats) <= max)
    ensures (ValidateChange(NodeValue(name), stats, Accessible(Some(text))) == Returned(false))
              == (Projected(stats) > max)
  {
    ModerateTotal(stats);
  }

  /** An admission never depends on the change; a rejection depends on it only through the log's null dereference. */
  lemma VerdictIgnoresChange(a: NewValue, b: NewValue, stats: Stats, config: Config)
    ensures ValidateChange(a, stats, config) == Returned(true) <==> ValidateChange(b, stats, config) == Returned(true)
    ensures a.NodeValue? && b.NodeValue? ==> ValidateChange(a, stats, config) == ValidateChange(b, stats, config)
  {
  }

  /** At least as many lifelines present or added, and at most as many removed. */
  predicate Heavier(s: Stats, t: Stats) {
    && t.currentLifelines >= s.currentLifelines
    && t.addedLifelines >= s.addedLifelines
    && t.lifelinesToAdd >= s.lifelinesToAdd
    && t.removedLifelines <= s.removedLifelines
    && t.lifelinesToDelete <= s.lifelinesToDelete
  }

  /**
   * Monotonicity: with moderate counts, more lifelines present or pending
   * addition never turn a rejection into an admission, and fewer pending
   * removals never turn a rejection into an admission either.
   */
  lemma MoreLifelinesNeverAdmit(v: NewValue, s: Stats, t: Stats, config: Config)
    requires Moderate(s) && Moderate(t) && Heavier(s, t)
    ensures ValidateChange(v, t, config) == Returned(true) ==> ValidateChange(v, s, config) == Returned(true)
  {
    ModerateTotal(s);
    ModerateTotal(t);
  }

  /**
   * Without the moderate-count bound the Java arithmetic wraps: a diagram
   * already at the largest `int` count with one more lifeline added is
   * admitted under any maximum.
   */
  lemma WrapAroundAdmits(v: NewValue, text: string, max: Int32)
    requires ParseInt(Some(text)) == Some(max)
    ensures ValidateChange(v, Stats(1, 0, 0x7FFF_FFFF, 0, 0), Accessible(Some(text))) == Returned(true)
  {
    assert Projected(Stats(1, 0, 0x7FFF_FFFF, 0, 0)) == 0x8000_0000;
    assert Wrap32(0x8000_0000) == -0x8000_0000;
  }

  /**
   * With `lifeline.max` set to "3" and two lifelines in the diagram, one
   * pending lifeline addition is admitted (three lifelines) and a second one
   * is rejected (four).
   */
  lemma MaximumThreeExample(name: string)
    ensures ValidateChange(NodeValue(name), Stats(1, 0, 2, 0, 0), Accessible(Some("3"))) == Returned(true)
    ensures ValidateChange(NodeValue(name), Stats(2, 0, 2, 0, 0), Accessible(Some("3"))) == Returned(false)
  {
    ParseShown(3);
    assert IntToString(3) == "3";
    ModerateTotal(Stats(1, 0, 2, 0, 0));
    ModerateTotal(Stats(2, 0, 2, 0, 0));
  }
}
