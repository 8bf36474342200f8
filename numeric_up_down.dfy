/** Controls/NumericUpDown.xaml.cs: the WPF stepper.  Its four `int`
    dependency properties, the change callback on `Value` that clamps it
    into [Minimum, Maximum], the up and down buttons, and the keystroke
    filter on its text box. */
module NumericUpDown {
  import opened Scalars

  /** The clamp the change callback applies. */
  function Clamp(v: int, lo: int, hi: int): (r: int)
    requires lo <= hi
    ensures lo <= r <= hi
    ensures lo <= v <= hi ==> r == v
    ensures v < lo ==> r == lo
    ensures v > hi ==> r == hi
  {
    if v < lo then lo else if v > hi then hi else v
  }

  /** `Value` after the assignment `Value = v`: a dependency property only
      reports a change, so assigning the current value does nothing and any
      other value ends up clamped. */
  function Assigned(current: int, v: int, lo: int, hi: int): (r: int)
    requires v == current || lo <= hi
  {
    if v == current then current else Clamp(v, lo, hi)
  }

  /** `Value` after the up button: `Math.Min(Maximum, Value + Step)`, the sum
      in unchecked 32-bit arithmetic. */
  function UpValue(value: int, step: int, lo: int, hi: int): int
    requires lo <= hi
  {
    Assigned(value, Min(hi, Wrap32(value + step)), lo, hi)
  }

  /** `Value` after the down button: `Math.Max(Minimum, Value - Step)`. */
  function DownValue(value: int, step: int, lo: int, hi: int): int
    requires lo <= hi
  {
    Assigned(value, Max(lo, Wrap32(value - step)), lo, hi)
  }

  function Min(a: int, b: int): int {
    if a <= b then a else b
  }

  function Max(a: int, b: int): int {
    if a >= b then a else b
  }

  class NumericUpDownControl {
    var value: int
    var minimum: int
    var maximum: int
    var step: int

    /** Every property holds a C# `int`. */
    predicate Valid()
      reads this
    {
      IsInt32(value) && IsInt32(minimum) && IsInt32(maximum) && IsInt32(step)
    }

    /** The registered defaults: Value 0, Minimum 0, Maximum 999999, Step 1. */
    constructor()
      ensures Valid()
      ensures value == 0 && minimum == 0 && maximum == 999999 && step == 1
    {
      value := 0;
      minimum := 0;
      maximum := 999999;
      step := 1;
    }

    /** The `Value` setter.  With Minimum above Maximum the callback would
        assign Minimum and Maximum to each other forever, so a changing
        assignment needs Minimum <= Maximum. */
    method SetValue(v: int)
      requires Valid() && IsInt32(v)
      requires v == value || minimum <= maximum
      modifies this
      ensures Valid()
      ensures minimum == old(minimum) && maximum == old(maximum) && step == old(step)
      ensures value == Assigned(old(value), v, minimum, maximum)
      decreases if minimum <= v <= maximum then 0 else 1, 1
    {
      if v != value {
        value := v;
        OnValueChanged(v);
      }
    }

    /** `OnValueChanged`: a new value below Minimum is replaced by Minimum,
        one above Maximum by Maximum, through the setter again. */
    method OnValueChanged(newValue: int)
      requires Valid() && value == newValue && minimum <= maximum
      modifies this
      ensures Valid()
      ensures minimum == old(minimum) && maximum == old(maximum) && step == old(step)
      ensures value == Clamp(newValue, minimum, maximum)
      decreases if minimum <= newValue <= maximum then 0 else 1, 0
    {
      if newValue < minimum {
        SetValue(minimum);
      } else if newValue > maximum {
        SetValue(maximum);
      }
    }

    /** The `Minimum` setter: no callback, so `Value` stays as it is even
        when it falls outside the new bounds. */
    method SetMinimum(m: int)
      requires Valid() && IsInt32(m)
      modifies this
      ensures Valid()
      ensures minimum == m && value == old(value) && maximum == old(maximum) && step == old(step)
    {
      minimum := m;
    }

    /** The `Maximum` setter: no callback either. */
    method SetMaximum(m: int)
      requires Valid() && IsInt32(m)
      modifies this
      ensures Valid()
      ensures maximum == m && value == old(value) && minimum == old(minimum) && step == old(step)
    {
      maximum := m;
    }

    method SetStep(s: int)
      requires Valid() && IsInt32(s)
      modifies this
      ensures Valid()
      ensures step == s && value == old(value) && minimum == old(minimum) && maximum == old(maximum)
    {
      step := s;
    }

    /** `UpButton_Click`. */
    method Up()
      requires Valid() && minimum <= maximum
      modifies this
      ensures Valid()
      ensures minimum == old(minimum) && maximum == old(maximum) && step == old(step)
      ensures value == UpValue(old(value), step, minimum, maximum)
    {
      SetValue(Min(maximum, Wrap32(value + step)));
    }

    /** `DownButton_Click`. */
    method Down()
      requires Valid() && minimum <= maximum
      modifies this
      ensures Valid()
      ensures minimum == old(minimum) && maximum == old(maximum) && step == old(step)
      ensures value == DownValue(old(value), step, minimum, maximum)
    {
      SetValue(Max(minimum, Wrap32(value - step)));
    }
  }

  // ----- properties of the stepper -----

  /** An assignment keeps a value that is within the bounds within them. */
  lemma AssignedInRange(current: int, v: int, lo: int, hi: int)
    requires lo <= hi && lo <= current <= hi
    ensures lo <= Assigned(current, v, lo, hi) <= hi
  {
  }

  /** A value inside the bounds is stored as assigned; one outside ends up
      at the nearer bound. */
  lemma AssignedClamps(current: int, v: int, lo: int, hi: int)
    requires lo <= hi
    ensures lo <= v <= hi ==> Assigned(current, v, lo, hi) == v
    ensures v < lo && current != v ==> Assigned(current, v, lo, hi) == lo
    ensures v > hi && current != v ==> Assigned(current, v, lo, hi) == hi
  {
  }

  /** Up and Down keep a value within the bounds within them, whatever the
      step, wrap-around included. */
  lemma StepsKeepRange(value: int, step: int, lo: int, hi: int)
    requires lo <= hi && lo <= value <= hi
    ensures lo <= UpValue(value, step, lo, hi) <= hi
    ensures lo <= DownValue(value, step, lo, hi) <= hi
  {
  }

  /** Up never lowers and Down never raises a value within the bounds, as
      long as the sum stays within 32 bits and the step is not negative. */
  lemma StepsMoveTheRightWay(value: int, step: int, lo: int, hi: int)
    requires lo <= hi && lo <= value <= hi && step >= 0
    ensures IsInt32(value + step) ==> value <= UpValue(value, step, lo, hi)
    ensures IsInt32(value - step) ==> DownValue(value, step, lo, hi) <= value
  {
  }

  /** Up at Maximum stays at Maximum, when the sum stays within 32 bits. */
  lemma UpIdempotentAtMaximum(step: int, lo: int, hi: int)
    requires lo <= hi && step >= 0 && IsInt32(hi + step)
    ensures UpValue(hi, step, lo, hi) == hi
  {
  }

  /** Down at Minimum stays at Minimum, when the difference stays within 32
      bits. */
  lemma DownIdempotentAtMinimum(step: int, lo: int, hi: int)
    requires lo <= hi && step >= 0 && IsInt32(lo - step)
    ensures DownValue(lo, step, lo, hi) == lo
  {
  }

  /** Up at Maximum == Int32.MaxValue with step 1: the sum wraps to
      Int32.MinValue, which is below Minimum, so the value jumps to Minimum
      instead of staying at Maximum. */
  lemma UpWrapsAtMaximum()
    ensures UpValue(INT32_MAX, 1, 0, INT32_MAX) == 0
  {
    assert Wrap32(INT32_MAX + 1) == INT32_MIN;
  }

  /** Down at Minimum == Int32.MinValue with step 1 wraps to Int32.MaxValue
      and the value jumps to Maximum. */
  lemma DownWrapsAtMinimum()
    ensures DownValue(INT32_MIN, 1, INT32_MIN, 0) == 0
  {
    assert Wrap32(INT32_MIN - 1) == INT32_MAX;
  }

  /** Up with the sum taken without wrap-around, as the bounds intend. */
  function UpValueUnwrapped(value: int, step: int, lo: int, hi: int): int
    requires lo <= hi
  {
    Assigned(value, Min(hi, value + step), lo, hi)
  }

  function DownValueUnwrapped(value: int, step: int, lo: int, hi: int): int
    requires lo <= hi
  {
    Assigned(value, Max(lo, value - step), lo, hi)
  }

  /** Without wrap-around, Up at Maximum stays at Maximum for every
      non-negative step, and it agrees with the source's Up wherever the
      sum fits in 32 bits. */
  lemma UpUnwrappedIdempotentAtMaximum(step: int, lo: int, hi: int)
    requires lo <= hi && step >= 0
    ensures UpValueUnwrapped(hi, step, lo, hi) == hi
    ensures forall v :: IsInt32(v) && IsInt32(v + step) ==> UpValueUnwrapped(v, step, lo, hi) == UpValue(v, step, lo, hi)
  {
  }

  /** Without wrap-around, Down at Minimum stays at Minimum, and it agrees
      with the source's Down wherever the difference fits in 32 bits. */
  lemma DownUnwrappedIdempotentAtMinimum(step: int, lo: int, hi: int)
    requires lo <= hi && step >= 0
    ensures DownValueUnwrapped(lo, step, lo, hi) == lo
    ensures forall v :: IsInt32(v) && IsInt32(v - step) ==> DownValueUnwrapped(v, step, lo, hi) == DownValue(v, step, lo, hi)
  {
  }

  // ----- the keystroke filter -----

  /** `^-?\d*$` on ASCII digits, the `$` also matching before a final "\n". */
  predicate MatchesNumeric(s: string) {
    IsSignedDigits(s) || (|s| > 0 && s[|s| - 1] == '\n' && IsSignedDigits(s[..|s| - 1]))
  }

  /** An optional `-` followed by any number of digits. */
  predicate IsSignedDigits(s: string) {
    AllDigits(s) || (|s| > 0 && s[0] == '-' && AllDigits(s[1..]))
  }

  /** `TextBox_PreviewTextInput`: the keystroke `input` is let through when
      the text with it inserted at the caret matches. */
  function AcceptsInput(text: string, caret: nat, input: string): bool
    requires caret <= |text|
  {
    MatchesNumeric(text[..caret] + input + text[caret..])
  }

  /** The empty text and a lone minus sign are accepted, so a number can be
      typed from scratch; so is every number as `int.ToString` writes it. */
  lemma AcceptedTexts(n: int)
    ensures MatchesNumeric("") && MatchesNumeric("-")
    ensures MatchesNumeric(IntToString(n))
  {
    assert AllDigits("-"[1..]);
    var s := IntToString(n);
    if n < 0 {
      assert s[1..] == NatDigits(-n);
    }
  }

  /** A text the filter lets through is white-space free apart from a
      possible final "\n": it holds no letter, no `+` and no second `-`. */
  lemma AcceptedShape(s: string, i: nat)
    requires MatchesNumeric(s) && i < |s|
    ensures IsDigit(s[i]) || (i == 0 && s[i] == '-') || (i == |s| - 1 && s[i] == '\n')
  {
    if !IsSignedDigits(s) {
      if i < |s| - 1 {
        var t := s[..|s| - 1];
        assert s[i] == t[i];
        if t[0] == '-' && i > 0 {
          assert t[1..][i - 1] == t[i];
        }
      }
    } else if s[0] == '-' && i > 0 {
      assert s[1..][i - 1] == s[i];
    }
  }

  /** A digit keystroke at the end of an accepted text is accepted, and a
      letter never is. */
  lemma DigitKeystrokes(text: string, c: char)
    requires IsSignedDigits(text)
    ensures IsDigit(c) ==> AcceptsInput(text, |text|, [c])
    ensures 'a' <= c <= 'z' ==> !AcceptsInput(text, |text|, [c])
  {
    var s := text[..|text|] + [c] + text[|text|..];
    assert s == text + [c];
    if IsDigit(c) {
      if text != [] && text[0] == '-' {
        assert s[1..] == text[1..] + [c];
      }
    }
    if 'a' <= c <= 'z' && MatchesNumeric(s) {
      AcceptedShape(s, |s| - 1);
    }
  }
}
