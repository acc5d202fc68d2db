/**
 * The integer input of the match form: the text the user edits, the
 * commit on blur that parses and clamps it, the focus that clears an
 * untouched value, and the plus and minus buttons.
 */
module NumberInput {
  import opened Wrappers
  import opened Text

  /** The text `/^-?\d*$/` matches: an optional minus sign followed by any number of digits. */
  predicate SignedDigits(s: string) {
    AllDigits(s) || (|s| >= 1 && s[0] == '-' && AllDigits(s[1..]))
  }

  /** `handleChange` takes the new text when it is empty or matches the pattern. */
  predicate Accepts(val: string) {
    val == "" || SignedDigits(val)
  }

  /** The longest run of digits at the front of `s`. */
  function LeadingDigits(s: string): (r: string)
    ensures AllDigits(r) && r <= s
    ensures |r| < |s| ==> !IsDigit(s[|r|])
    decreases |s|
  {
    if s == [] || !IsDigit(s[0]) then [] else [s[0]] + LeadingDigits(s[1..])
  }

  /**
   * `parseInt(s)`: an optional minus sign and the digits that follow it, up
   * to the first other character; NaN (`None`) when there are no such digits.
   */
  function ParseInt(s: string): Option<int> {
    var neg := |s| >= 1 && s[0] == '-';
    var d := LeadingDigits(if neg then s[1..] else s);
    var n: int := if d == [] then 0 else DigitsValue(d);
    if d == [] then None else Some(if neg then -n else n)
  }

  /** A digit string is its own leading run of digits. */
  lemma {:induction false} LeadingDigitsAll(s: string)
    requires AllDigits(s)
    ensures LeadingDigits(s) == s
    decreases |s|
  {
    if s != [] {
      assert AllDigits(s[1..]) by {
        forall i | 0 <= i < |s[1..]|
          ensures IsDigit(s[1..][i])
        {
          assert s[1..][i] == s[i + 1];
        }
      }
      LeadingDigitsAll(s[1..]);
      assert [s[0]] + s[1..] == s;
    }
  }

  /** Parsing the text of a natural number gives the number back. */
  lemma ParseNatToString(n: nat)
    ensures ParseInt(NatToString(n)) == Some(n as int)
  {
    NatToStringValue(n);
    ParseIntDigits(NatToString(n));
  }

  /** Parsing a minus sign and the text of a natural number gives the negated number. */
  lemma ParseNegatedNatToString(n: nat)
    ensures ParseInt("-" + NatToString(n)) == Some(-(n as int))
  {
    NatToStringValue(n);
    ParseIntNegDigits(NatToString(n));
  }

  /** Parsing the text of an integer gives the integer back. */
  lemma ParseIntToString(v: int)
    ensures ParseInt(IntToString(v)) == Some(v)
  {
    if v < 0 {
      ParseNegatedNatToString(-v);
    } else {
      ParseNatToString(v);
    }
  }

  /** The text of an integer is accepted input. */
  lemma IntToStringAccepted(v: int)
    ensures Accepts(IntToString(v))
  {
    if v < 0 {
      assert IntToString(v)[1..] == NatToString(-v);
    }
  }

  /** A non-empty digit string parses to its value. */
  lemma ParseIntDigits(d: string)
    requires AllDigits(d) && d != []
    ensures ParseInt(d) == Some(DigitsValue(d))
  {
    assert IsDigit(d[0]);
    LeadingDigitsAll(d);
  }

  /** A minus sign before a non-empty digit string parses to the negated value. */
  lemma ParseIntNegDigits(d: string)
    requires AllDigits(d) && d != []
    ensures ParseInt("-" + d) == Some(-(DigitsValue(d) as int))
  {
    assert ("-" + d)[1..] == d;
    LeadingDigitsAll(d);
  }

  /** The number an accepted text other than `''` and `'-'` spells, sign included. */
  function SignedValue(s: string): int
    requires Accepts(s) && s != "" && s != "-"
  {
    if s[0] == '-' then -(DigitsValue(s[1..]) as int) else DigitsValue(s)
  }

  /**
   * On accepted text, `parseInt` fails exactly on `''` and `'-'`, and
   * otherwise reads the whole text with its sign.
   */
  lemma ParseIntAccepted(s: string)
    requires Accepts(s)
    ensures ParseInt(s) == if s == "" || s == "-" then None else Some(SignedValue(s))
  {
    if s == "" {
      assert LeadingDigits(s) == "";
    } else if s == "-" {
      assert LeadingDigits(s[1..]) == "";
    } else if s[0] == '-' {
      assert !IsDigit(s[0]);
      assert s == "-" + s[1..];
      ParseIntNegDigits(s[1..]);
    } else {
      ParseIntDigits(s);
    }
  }

  /** `Math.max(min, Math.min(max, parsed))`. */
  function Clamp(lo: int, hi: int, p: int): (r: int)
    ensures lo <= hi ==> lo <= r <= hi
    ensures lo <= p <= hi ==> r == p
    ensures lo <= hi && p < lo ==> r == lo
    ensures lo <= hi && hi < p ==> r == hi
    ensures hi < lo ==> r == lo
  {
    var m := if hi < p then hi else p;
    if m < lo then lo else m
  }

  /**
   * `commitValue` on the current text: the text afterwards and the number
   * handed to `onChange`. A number is clamped and the text is left as
   * typed; NaN sets the text to `'0'` and hands on 0.
   */
  function Commit(text: string, lo: int, hi: int): (r: (string, int)) {
    match ParseInt(text)
    case Some(p) => (text, Clamp(lo, hi, p))
    case None => ("0", 0)
  }

  /**
   * Committing accepted text: `''` and `'-'` give 0 and the text `'0'`,
   * whatever the bounds; any other text is kept and hands on a number
   * within the bounds. The text stays accepted either way.
   */
  lemma CommitSpec(text: string, lo: int, hi: int)
    requires Accepts(text)
    ensures text == "" || text == "-" ==> Commit(text, lo, hi) == ("0", 0)
    ensures text != "" && text != "-" ==> Commit(text, lo, hi).0 == text
    ensures text != "" && text != "-" && lo <= hi ==> lo <= Commit(text, lo, hi).1 <= hi
    ensures Accepts(Commit(text, lo, hi).0)
  {
    ParseIntAccepted(text);
    assert Accepts("0") by {
      assert IsDigit("0"[0]);
    }
  }

  /** Committing the text of an in-range value hands the same value on. */
  lemma CommitOfValue(v: int, lo: int, hi: int)
    requires lo <= v <= hi
    ensures Commit(IntToString(v), lo, hi) == (IntToString(v), v)
  {
    ParseIntToString(v);
  }

  /** `increment`: `Math.min(value + step, max)`. */
  function StepUp(value: int, step: int, hi: int): (r: int)
    ensures r <= hi
    ensures value + step <= hi ==> r == value + step
    ensures hi < value + step ==> r == hi
    ensures value <= hi && 0 <= step ==> value <= r
  {
    if value + step < hi then value + step else hi
  }

  /** `decrement`: `Math.max(value - step, min)`. */
  function StepDown(value: int, step: int, lo: int): (r: int)
    ensures lo <= r
    ensures lo <= value - step ==> r == value - step
    ensures value - step < lo ==> r == lo
    ensures lo <= value && 0 <= step ==> r <= value
  {
    if lo < value - step then value - step else lo
  }

  /**
   * The committed text is kept as typed, and the effect that rewrites the
   * text runs only when `value` changes. So a typed number beyond `max`,
   * committed while `value` already is `max`, stays on screen although
   * the value handed on is `max`.
   */
  lemma TypedTextOutlivesClamp(text: string, lo: int, hi: int)
    requires lo <= hi && Accepts(text)
    requires ParseInt(text).Some? && hi < ParseInt(text).value
    ensures Commit(text, lo, hi) == (text, hi)
    ensures text != IntToString(hi)
  {
    ParseIntToString(hi);
  }

  /** The same commit, with the text rewritten to the number handed on. */
  function CommitShown(text: string, lo: int, hi: int): (r: (string, int)) {
    match ParseInt(text)
    case Some(p) => (IntToString(Clamp(lo, hi, p)), Clamp(lo, hi, p))
    case None => ("0", 0)
  }

  /** After the corrected commit the text always reads as the number handed on, within the bounds. */
  lemma CommitShownAgrees(text: string, lo: int, hi: int)
    requires lo <= hi && lo <= 0 <= hi
    ensures ParseInt(CommitShown(text, lo, hi).0) == Some(CommitShown(text, lo, hi).1)
    ensures lo <= CommitShown(text, lo, hi).1 <= hi
    ensures Accepts(CommitShown(text, lo, hi).0)
  {
    var r := CommitShown(text, lo, hi);
    ParseIntToString(r.1);
    IntToStringAccepted(r.1);
    assert r.1 == 0 ==> "0" == IntToString(0);
  }

  /** One `NumberField`: its props, the `value` it last rendered with, and the text in the box. */
  class NumberField {
    const min: int
    const max: int
    const step: int
    var value: int
    var inputValue: string

    /** The text in the box is always `''` or matches `/^-?\d*$/`. */
    ghost predicate Valid()
      reads this
    {
      Accepts(inputValue)
    }

    /** The first render: the text starts as `value.toString()`. */
    constructor (value: int, min: int, max: int, step: int)
      ensures Valid()
      ensures this.value == value && inputValue == IntToString(value)
      ensures this.min == min && this.max == max && this.step == step
    {
      this.value, this.min, this.max, this.step := value, min, max, step;
      inputValue := IntToString(value);
      IntToStringAccepted(value);
    }

    /** A field rendered with the default props `min = 0`, `max = 100`, `step = 1`. */
    constructor Default(value: int)
      ensures Valid()
      ensures this.value == value && inputValue == IntToString(value)
      ensures min == 0 && max == 100 && step == 1
    {
      this.value, min, max, step := value, 0, 100, 1;
      inputValue := IntToString(value);
      IntToStringAccepted(value);
    }

    /** A new render: the effect on `[value]` rewrites the text only when `value` changed. */
    method Render(newValue: int)
      requires Valid()
      modifies this
      ensures Valid()
      ensures value == newValue
      ensures inputValue == if newValue != old(value) then IntToString(newValue) else old(inputValue)
    {
      if newValue != value {
        IntToStringAccepted(newValue);
        inputValue := IntToString(newValue);
      }
      value := newValue;
    }

    /** `handleChange`: accepted text replaces the text in the box; anything else is ignored. */
    method HandleChange(val: string)
      requires Valid()
      modifies this
      ensures Valid()
      ensures inputValue == if Accepts(val) then val else old(inputValue)
      ensures value == old(value)
    {
      if val == "" || SignedDigits(val) {
        inputValue := val;
      }
    }

    /** `commitValue` (on blur): the text afterwards and the number handed to `onChange`. */
    method CommitValue() returns (emitted: int)
      requires Valid()
      modifies this
      ensures Valid()
      ensures (inputValue, emitted) == Commit(old(inputValue), min, max)
      ensures value == old(value)
    {
      CommitSpec(inputValue, min, max);
      var parsed := ParseInt(inputValue);
      if parsed.Some? {
        emitted := Clamp(min, max, parsed.value);
      } else {
        inputValue := "0";
        emitted := 0;
      }
    }

    /** `handleFocus`: the box is cleared when it still shows `value` as rendered. */
    method HandleFocus()
      requires Valid()
      modifies this
      ensures Valid()
      ensures inputValue == if old(inputValue) == IntToString(value) then "" else old(inputValue)
      ensures value == old(value)
    {
      if inputValue == IntToString(value) {
        inputValue := "";
      }
    }

    /** The plus button: the number handed to `onChange`, never above `max`. */
    method Increment() returns (next: int)
      ensures next == StepUp(value, step, max)
    {
      next := StepUp(value, step, max);
    }

    /** The minus button: the number handed to `onChange`, never below `min`. */
    method Decrement() returns (next: int)
      ensures next == StepDown(value, step, min)
    {
      next := StepDown(value, step, min);
    }
  }
}
