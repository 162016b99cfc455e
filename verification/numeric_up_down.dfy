/**
 The NumericUpDown control as plain state: its value and bounds, the number of
 decimal places and the format string derived from it, the arrow visibility with
 the layout it drives, the text in the text box, and how many times the Value
 change handler has run (each run raises ValueChanged to any attached handler).

 The host property system calls a property's change handler only when the new
 value differs from the old one; every setter here therefore leaves the control
 unchanged when it is given the value the property already holds.
 */
module NumericUpDown {
  import opened Wrappers
  import opened Text
  import opened InputFilter
  import opened Validation
  import opened DisplayFormat

  datatype Visibility = Visible | Hidden | Collapsed

  /** Renders a value through a composite format string, as the host's formatting does. */
  type Renderer = (string, real) -> string

  datatype Control = Control(
    value: real,
    minimum: real,
    maximum: real,
    decimalPlaces: int,
    stringFormat: string,
    arrowsVisibility: Visibility,
    increaseVisibility: Visibility,
    decreaseVisibility: Visibility,
    textColumnSpan: nat,
    text: string,
    valueChangedCount: nat)

  /** Columns the text box spans: one beside visible arrows, two when they are not shown. */
  function ColumnSpan(v: Visibility): (n: nat)
    ensures n == 1 <==> v == Visible
    ensures n == 2 <==> v != Visible
  {
    if v == Visible then 1 else 2
  }

  /** The format string matches the number of places, and the layout matches the arrow visibility. */
  predicate Valid(c: Control)
  {
    && c.stringFormat == FormatString(c.decimalPlaces)
    && c.increaseVisibility == c.arrowsVisibility
    && c.decreaseVisibility == c.arrowsVisibility
    && c.textColumnSpan == ColumnSpan(c.arrowsVisibility)
  }

  predicate InRange(c: Control)
  {
    c.minimum <= c.value <= c.maximum
  }

  /**
   A freshly constructed control. `markupText` is the text box content the markup
   gives it; the markup's layout shows both arrows beside a one-column text box.
   */
  function Init(markupText: string): (c: Control)
    ensures Valid(c)
    ensures c.value == 0.0 && c.minimum == 0.0 && c.maximum == 100.0 && InRange(c)
    ensures c.decimalPlaces == 0 && c.stringFormat == "{0:F0}"
    ensures ParseFormatString(c.stringFormat) == Some(c.decimalPlaces)
    ensures c.arrowsVisibility == Visible && c.textColumnSpan == 1
    ensures c.text == markupText
    ensures c.valueChangedCount == 0
  {
    InitialFormatIsZeroPlaces();
    Control(0.0, 0.0, 100.0, 0, "{0:F0}", Visible, Visible, Visible, 1, markupText, 0)
  }

  /** Assigning Value: stored as given, with no range correction; ValueChanged fires when it changes. */
  function SetValue(c: Control, v: real): (r: Control)
    ensures r.value == v
    ensures r.valueChangedCount > c.valueChangedCount <==> v != c.value
    ensures r.valueChangedCount <= c.valueChangedCount + 1
    ensures r.(value := c.value, valueChangedCount := c.valueChangedCount) == c
    ensures Valid(c) ==> Valid(r)
  {
    if v == c.value then c
    else c.(value := v, valueChangedCount := c.valueChangedCount + 1)
  }

  /** The increase arrow: one more, never corrected into range. */
  function Increase(c: Control): (r: Control)
    ensures r.value == c.value + 1.0
    ensures c.value >= c.maximum ==> !InRange(r)
    ensures r.valueChangedCount == c.valueChangedCount + 1
    ensures r.(value := c.value, valueChangedCount := c.valueChangedCount) == c
  {
    SetValue(c, c.value + 1.0)
  }

  /** The decrease arrow: one less, never corrected into range. */
  function Decrease(c: Control): (r: Control)
    ensures r.value == c.value - 1.0
    ensures c.value <= c.minimum ==> !InRange(r)
    ensures r.valueChangedCount == c.valueChangedCount + 1
    ensures r.(value := c.value, valueChangedCount := c.valueChangedCount) == c
  {
    SetValue(c, c.value - 1.0)
  }

  /** Increase then decrease restores everything but the notification count, which grows by two. */
  lemma IncreaseThenDecrease(c: Control)
    ensures Decrease(Increase(c)) == c.(valueChangedCount := c.valueChangedCount + 2)
  {
  }

  /** Reading ValueString: the value rendered through the current format string. */
  function ValueString(c: Control, render: Renderer): (s: string)
    ensures Valid(c) ==> s == render(FormatString(c.decimalPlaces), c.value)
  {
    render(c.stringFormat, c.value)
  }

  /** Assigning ValueString: the text is validated and the result assigned to Value. */
  function SetValueString(c: Control, parse: Parser, s: string): (r: Control)
    ensures parse(s).None? ==> r == c
    ensures parse(s).Some? && c.minimum <= c.maximum ==> InRange(r)
    ensures parse(s).Some? ==> r.value <= c.maximum
    ensures parse(s).Some? && c.minimum <= parse(s).value <= c.maximum ==> r.value == parse(s).value
    ensures parse(s).Some? && parse(s).value > c.maximum ==> r.value == c.maximum
    ensures parse(s).Some? && parse(s).value < c.minimum <= c.maximum ==> r.value == c.minimum
    ensures parse(s).Some? && c.minimum > c.maximum ==> r.value == c.maximum
    ensures parse(s).Some? ==> r.value == ValidationValue(parse, s, c.value, c.minimum, c.maximum)
    ensures r.valueChangedCount > c.valueChangedCount <==> r.value != c.value
    ensures r.(value := c.value, valueChangedCount := c.valueChangedCount) == c
    ensures Valid(c) ==> Valid(r)
  {
    SetValue(c, ValidationValue(parse, s, c.value, c.minimum, c.maximum))
  }

  /** A parse failure keeps the current value even when it lies outside the bounds. */
  lemma ParseFailureKeepsOutOfRangeValue(c: Control, parse: Parser, s: string)
    requires parse(s).None?
    requires !InRange(c)
    ensures !InRange(SetValueString(c, parse, s))
    ensures SetValueString(c, parse, s).value == c.value
  {
  }

  /** Committing the same text a second time changes nothing and raises no further notification. */
  lemma SetValueStringIdempotent(c: Control, parse: Parser, s: string)
    ensures var r := SetValueString(c, parse, s);
            SetValueString(r, parse, s) == r
  {
  }

  /**
   Assigning DecimalPlaces: a new format string for that many places, and the
   text box shows the value rendered through it.
   */
  function SetDecimalPlaces(c: Control, places: int, render: Renderer): (r: Control)
    ensures r.decimalPlaces == places
    ensures Valid(c) ==> Valid(r)
    ensures Valid(c) ==> ParseFormatString(r.stringFormat) == Some(places)
    ensures places == c.decimalPlaces ==> r == c
    ensures places != c.decimalPlaces ==> r.stringFormat == FormatString(places)
    ensures places != c.decimalPlaces ==> r.text == render(r.stringFormat, c.value)
    ensures r.(decimalPlaces := c.decimalPlaces, stringFormat := c.stringFormat, text := c.text) == c
  {
    if places == c.decimalPlaces then c
    else
      var f := FormatString(places);
      c.(decimalPlaces := places, stringFormat := f, text := render(f, c.value))
  }

  /** Assigning ArrowsVisibility: both arrows take it, and the text box spans the freed column. */
  function SetArrowsVisibility(c: Control, v: Visibility): (r: Control)
    ensures r.arrowsVisibility == v
    ensures Valid(c) ==> Valid(r)
    ensures Valid(c) ==> r.increaseVisibility == v && r.decreaseVisibility == v
    ensures Valid(c) ==> (r.textColumnSpan == 1 <==> v == Visible)
    ensures r.(arrowsVisibility := c.arrowsVisibility, increaseVisibility := c.increaseVisibility,
               decreaseVisibility := c.decreaseVisibility, textColumnSpan := c.textColumnSpan) == c
  {
    if v == c.arrowsVisibility then c
    else c.(arrowsVisibility := v, increaseVisibility := v, decreaseVisibility := v,
            textColumnSpan := ColumnSpan(v))
  }

  /** Hiding visible arrows widens the text box from one column to two. */
  lemma HidingArrowsWidensText(c: Control)
    requires Valid(c) && c.arrowsVisibility == Visible
    ensures c.textColumnSpan == 1
    ensures SetArrowsVisibility(c, Hidden).textColumnSpan == 2
    ensures SetArrowsVisibility(c, Hidden).increaseVisibility == Hidden
    ensures SetArrowsVisibility(c, Hidden).decreaseVisibility == Hidden
  {
  }

  /** Assigning Minimum: the bound alone changes; the current value is not corrected. */
  function SetMinimum(c: Control, m: real): (r: Control)
    ensures r.minimum == m && r.value == c.value
    ensures r.(minimum := c.minimum) == c
    ensures Valid(c) ==> Valid(r)
  {
    c.(minimum := m)
  }

  /** Assigning Maximum: the bound alone changes; the current value is not corrected. */
  function SetMaximum(c: Control, m: real): (r: Control)
    ensures r.maximum == m && r.value == c.value
    ensures r.(maximum := c.maximum) == c
    ensures Valid(c) ==> Valid(r)
  {
    c.(maximum := m)
  }

  /**
   A composition event on the text box: admitted strings are spliced into the text,
   rejected ones leave the control as it is. Typing never touches the value.
   */
  function TextInput(c: Control, k: Keystroke): (r: Control)
    ensures !Admits(c.text, k.input) ==> r == c
    ensures k.input == [] ==> r == c
    ensures Admits(c.text, k.input) ==> r.text == Splice(c.text, k.caret, k.selection, k.input)
    ensures |k.input| == 1 && AtMostOneCommaAndMinus(c.text) ==> AtMostOneCommaAndMinus(r.text)
    ensures r.(text := c.text) == c
  {
    var r := c.(text := Type(c.text, k));
    assert |k.input| == 1 && AtMostOneCommaAndMinus(c.text) ==> AtMostOneCommaAndMinus(r.text) by {
      if |k.input| == 1 && AtMostOneCommaAndMinus(c.text) {
        TypeOnePreserves(c.text, k);
      }
    }
    r
  }

  /** A session of keystrokes on the control. */
  function TypeSession(c: Control, keys: seq<Keystroke>): (r: Control)
    ensures r.text == TypeAll(c.text, keys)
    ensures r.(text := c.text) == c
    decreases |keys|
  {
    if keys == [] then c
    else TextInput(TypeSession(c, keys[..|keys| - 1]), keys[|keys| - 1])
  }

  /**
   From text with at most one comma and one minus, any session of single-character
   keystrokes keeps it so, and leaves value, bounds and format alone.
   */
  lemma {:induction false} TypeSessionPreservesText(c: Control, keys: seq<Keystroke>)
    requires AtMostOneCommaAndMinus(c.text)
    requires forall i :: 0 <= i < |keys| ==> |keys[i].input| == 1
    ensures AtMostOneCommaAndMinus(TypeSession(c, keys).text)
    ensures TypeSession(c, keys).value == c.value
    ensures Valid(c) ==> Valid(TypeSession(c, keys))
  {
    TypeAllPreserves(c.text, keys);
  }
}
