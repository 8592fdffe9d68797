/**
 * The two numeric settings of src/Home.js: the range guards of the
 * `Settings` panel, and the rule by which a `Setting` input commits what the
 * user typed.
 */
module Settings {
  import opened Wrappers

  /** A new patterns-per-line value must stay below this. */
  const MaxPatternsPerLine: int := 300

  /** A new pattern size must stay below this. */
  const MaxPatternSize: int := 100

  predicate IsDigit(c: char)
  {
    '0' <= c <= '9'
  }

  function DigitChar(d: nat): (c: char)
    requires d < 10
    ensures IsDigit(c) && c as int - '0' as int == d
  {
    ('0' as int + d) as char
  }

  predicate AllDigits(s: string)
  {
    forall i :: 0 <= i < |s| ==> IsDigit(s[i])
  }

  /** The value of a string of decimal digits. */
  function DigitsValue(s: string): nat
    requires AllDigits(s)
    decreases |s|
  {
    if |s| == 0 then 0
    else DigitsValue(s[..|s| - 1]) * 10 + (s[|s| - 1] as int - '0' as int)
  }

  /** Decimal digits of n, most significant first, with no leading zero; they read back as n. */
  function Digits(n: nat): (s: string)
    ensures |s| > 0 && AllDigits(s) && DigitsValue(s) == n
    decreases n
  {
    if n < 10 then [DigitChar(n)]
    else
      var high, low := Digits(n / 10), DigitChar(n % 10);
      var s := high + [low];
      assert s[..|s| - 1] == high;
      s
  }

  /**
   * The number JavaScript makes of the text of a number input (Number(text),
   * and the coercion in `text < 300`), for integer text: the empty text is 0,
   * an optional sign followed by digits is that integer, and anything else is
   * NaN, here None.
   */
  function ParseNumber(text: string): (n: Option<int>)
    ensures text == "" ==> n == Some(0)
    ensures AllDigits(text) ==> n == Some(DigitsValue(text))
  {
    if text == "" then Some(0)
    else if AllDigits(text) then Some(DigitsValue(text))
    else if |text| > 1 && (text[0] == '-' || text[0] == '+') && AllDigits(text[1..]) then
      var magnitude: int := DigitsValue(text[1..]);
      Some(if text[0] == '-' then -magnitude else magnitude)
    else None
  }

  /** Number.prototype.toString on an integer: its text reads back as the integer. */
  function Text(value: int): (text: string)
    ensures ParseNumber(text) == Some(value)
  {
    if value < 0 then
      var digits := Digits(-value);
      var text := "-" + digits;
      assert text[1..] == digits && !IsDigit(text[0]);
      text
    else Digits(value)
  }

  /**
   * The guard of both settings: the proposed text is stored as a number only
   * when that number is below `limit`; text that is not a number is refused.
   */
  function Accept(current: int, text: string, limit: int): (next: int)
    ensures next == current || (ParseNumber(text) == Some(next) && next < limit)
    ensures ParseNumber(text).Some? && ParseNumber(text).value < limit ==> next == ParseNumber(text).value
  {
    match ParseNumber(text)
    case Some(value) => if value < limit then value else current
    case None => current
  }

  /** set_value of the patterns-per-line input. */
  function SetPatternsPerLine(current: int, text: string): (next: int)
    ensures next == current || (ParseNumber(text) == Some(next) && next < MaxPatternsPerLine)
    ensures ParseNumber(text).Some? && ParseNumber(text).value < MaxPatternsPerLine ==> next == ParseNumber(text).value
  {
    Accept(current, text, MaxPatternsPerLine)
  }

  /** set_value of the pattern-size input. */
  function SetPatternSize(current: int, text: string): (next: int)
    ensures next == current || (ParseNumber(text) == Some(next) && next < MaxPatternSize)
    ensures ParseNumber(text).Some? && ParseNumber(text).value < MaxPatternSize ==> next == ParseNumber(text).value
  {
    Accept(current, text, MaxPatternSize)
  }

  /** A stored value below the limit stays below it, whatever is proposed. */
  lemma AcceptKeepsBound(current: int, text: string, limit: int)
    requires current < limit
    ensures Accept(current, text, limit) < limit
  {
  }

  /** Proposing the same text twice is the same as proposing it once. */
  lemma AcceptIdempotent(current: int, text: string, limit: int)
    ensures Accept(Accept(current, text, limit), text, limit) == Accept(current, text, limit)
  {
  }

  /** Proposing the current value leaves the setting as it is. */
  lemma AcceptCurrentText(current: int, limit: int)
    ensures Accept(current, Text(current), limit) == current
  {
  }

  /** What the user does in a `Setting`: press a key in it, or click OK. */
  datatype Action = KeyDown(key: string) | ClickOk

  /** The input text differs from the text of the stored value. */
  predicate HasTyped(value: int, input: string)
    ensures input == Text(value) ==> !HasTyped(value, input)
    ensures ParseNumber(input) != Some(value) ==> HasTyped(value, input)
  {
    Text(value) != input
  }

  /**
   * The text handed to set_value, if any: Enter always commits, OK commits
   * only after the user has typed something other than the stored value.
   */
  function Submitted(action: Action, value: int, input: string): (committed: Option<string>)
    ensures committed.Some? ==> committed.value == input
    ensures action.KeyDown? ==> (committed.Some? <==> action.key == "Enter")
    ensures action == ClickOk ==> (committed.Some? <==> HasTyped(value, input))
  {
    match action
    case KeyDown(key) => if key == "Enter" then Some(input) else None
    case ClickOk => if HasTyped(value, input) then Some(input) else None
  }

  /** One action on a `Setting` whose guard has limit `limit`: the new stored value. */
  function Interact(action: Action, current: int, input: string, limit: int): (next: int)
    ensures next == current || (ParseNumber(input) == Some(next) && next < limit)
    ensures action == KeyDown("Enter") && ParseNumber(input).Some? && ParseNumber(input).value < limit
            ==> next == ParseNumber(input).value
    ensures action == ClickOk && ParseNumber(input) == Some(current) ==> next == current
  {
    match Submitted(action, current, input)
    case Some(text) => Accept(current, text, limit)
    case None => current
  }

  /** OK commits a typed number exactly when it differs from the stored value. */
  lemma ClickCommitsOnlyChanges(value: int, typed: int)
    ensures Submitted(ClickOk, value, Text(typed)).Some? <==> value != typed
  {
  }

  /** Without typing, neither Enter nor OK changes the stored value. */
  lemma UntypedKeepsValue(action: Action, current: int, limit: int)
    ensures Interact(action, current, Text(current), limit) == current
  {
    AcceptCurrentText(current, limit);
  }

  /** Every action keeps a stored value that is below the limit below it. */
  lemma InteractKeepsBound(action: Action, current: int, input: string, limit: int)
    requires current < limit
    ensures Interact(action, current, input, limit) < limit
  {
  }
}
