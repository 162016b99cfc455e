/**
 Validation of the text the user committed: parse it as a decimal; on failure keep
 the current value, on success bring it into the configured range, first raising
 it to the minimum and then lowering it to the maximum.
 */
module Validation {
  import opened Wrappers

  /** A decimal parser from text, as the host's number parsing provides it. */
  type Parser = string -> Option<real>

  /**
   The textbook clamp of `v` into `[lo, hi]`: the nearest bound when `v` is outside.
   It serves as the reference the control's own range correction is compared with.
   */
  function Clamp(v: real, lo: real, hi: real): (r: real)
    requires lo <= hi
    ensures lo <= r <= hi
    ensures lo <= v <= hi ==> r == v
    ensures r == v || r == lo || r == hi
    ensures v < lo ==> r == lo
    ensures v > hi ==> r == hi
  {
    if v < lo then lo else if v > hi then hi else v
  }

  /** The control's range correction: raise to `minimum`, then lower to `maximum`. */
  function RaiseThenLower(v: real, minimum: real, maximum: real): (r: real)
    ensures r <= maximum
    ensures minimum <= maximum ==> r == Clamp(v, minimum, maximum)
    ensures minimum > maximum ==> r == maximum
    ensures v > maximum ==> r == maximum
  {
    var raised := if v < minimum then minimum else v;
    if raised > maximum then maximum else raised
  }

  /** Correcting an already corrected value changes nothing. */
  lemma RaiseThenLowerIdempotent(v: real, minimum: real, maximum: real)
    ensures RaiseThenLower(RaiseThenLower(v, minimum, maximum), minimum, maximum)
         == RaiseThenLower(v, minimum, maximum)
  {
  }

  /**
   With inverted bounds the order of the two corrections matters: a value below
   both bounds ends at the maximum, where the lower-then-raise order gives the minimum.
   */
  lemma InvertedBoundsFavourMaximum(v: real, minimum: real, maximum: real)
    requires maximum < minimum
    requires v < maximum
    ensures RaiseThenLower(v, minimum, maximum) == maximum
    ensures RaiseThenLower(v, minimum, maximum) != LowerThenRaise(v, minimum, maximum)
  {
  }

  /** The other order, `max(minimum, min(maximum, v))`, used only for comparison. */
  function LowerThenRaise(v: real, minimum: real, maximum: real): (r: real)
    ensures r >= minimum
    ensures minimum <= maximum ==> r == Clamp(v, minimum, maximum)
  {
    var lowered := if v > maximum then maximum else v;
    if lowered < minimum then minimum else lowered
  }

  /**
   The value that committing `text` yields, given the control's current value
   and bounds.
   */
  function ValidationValue(parse: Parser, text: string, current: real, minimum: real, maximum: real): (r: real)
    ensures parse(text).None? ==> r == current
    ensures parse(text).Some? ==> r <= maximum
    ensures parse(text).Some? && minimum <= maximum ==> minimum <= r <= maximum
    ensures parse(text).Some? && minimum <= parse(text).value <= maximum ==> r == parse(text).value
    ensures parse(text).Some? && parse(text).value > maximum ==> r == maximum
    ensures parse(text).Some? && parse(text).value < minimum <= maximum ==> r == minimum
    ensures parse(text).Some? && minimum > maximum ==> r == maximum
  {
    match parse(text)
    case None => current
    case Some(v) => RaiseThenLower(v, minimum, maximum)
  }
}
