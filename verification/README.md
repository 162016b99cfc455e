# NumericUpDown, modelled in Dafny

A model of the `NumericUpDown` control of KhachoWPFControls: a numeric spinner
with a decimal `Value`, `Minimum`/`Maximum` bounds, a `DecimalPlaces` setting
that selects the display format, two arrow buttons, and a text box whose
keystrokes are filtered before they reach the text.

The control is modelled as an immutable record (`NumericUpDown.Control`) and
every property setter, button click and keystroke as a pure function from one
control state to the next. The modules are:

- `InputFilter`: the keystroke filter `Admits` and the text a sequence of
  keystrokes produces; the invariant "at most one comma and one minus".
- `Validation`: the text-to-value rule (parse, else keep the current value;
  raise to `Minimum`, then lower to `Maximum`), with a textbook clamp as the
  reference it agrees with whenever `Minimum <= Maximum`.
- `DisplayFormat`: the format string `{0:F<n>}` built from the decimal text of
  `DecimalPlaces`, with a parser for it and round-trip lemmas both ways.
- `NumericUpDown`: the control state, its constructor, and the setters.
- `Text`, `Wrappers`: occurrence counting, the host's splice of typed text into
  the text box, and `Option`.

Decimal numbers are `real`. The host's number parsing (`decimal.TryParse`) is
a parameter `parse: string -> Option<real>` and the host's formatting
(`string.Format`) a parameter `render: (string, real) -> string`; every
property holds for all of them.

The host property system runs a property's change handler only when the new
value differs from the old one. The model follows that: assigning `Value`,
`DecimalPlaces` or `ArrowsVisibility` its current value leaves the control
unchanged. The model counts the runs of the `Value` change handler, which
happen exactly when `Value` changes; each run raises `ValueChanged` when a
handler is attached to that event.

Assigning `Value` or clicking an arrow never corrects the value into range;
only committing text through `ValueString` does. That correction raises the
parsed value to `Minimum` and then lowers it to `Maximum`, so with
`Minimum > Maximum` it always ends at `Maximum`, where
`max(Minimum, min(Maximum, v))` would give `Minimum`
(`Validation.InvertedBoundsFavourMaximum`). A parse failure keeps the current
value.

## Model

| member | source | states |
|---|---|---|
| InputFilter.Admits | KhachoWPFControls/NumericUpDown.xaml.cs:301-326 | an empty string is rejected; a lone `,` is admitted iff the text has no comma, a lone `-` iff it has no minus; a string starting with a digit is admitted; anything else, `.` included, is rejected |
| InputFilter.TypeOnePreserves | KhachoWPFControls/NumericUpDown.xaml.cs:311-325 | one admitted single character, spliced at any caret over any selection, keeps at most one comma and one minus |
| InputFilter.TypeAllPreserves | KhachoWPFControls/NumericUpDown.xaml.cs:311-325 | any sequence of single-character keystrokes keeps a text with at most one comma and one minus |
| InputFilter.MultiCharacterInputEscapesFilter | KhachoWPFControls/NumericUpDown.xaml.cs:316 | the digit test looks only at the first character: `1,,` is admitted into empty text and yields two commas |
| Validation.RaiseThenLower | KhachoWPFControls/NumericUpDown.xaml.cs:228-229 | the result never exceeds `Maximum`; equals the textbook clamp when `Minimum <= Maximum`; equals `Maximum` when the bounds are inverted |
| Validation.RaiseThenLowerIdempotent | KhachoWPFControls/NumericUpDown.xaml.cs:228-229 | correcting a corrected value again changes nothing |
| Validation.InvertedBoundsFavourMaximum | KhachoWPFControls/NumericUpDown.xaml.cs:228-229 | with `Maximum < Minimum` a value below both ends at `Maximum`, unlike the lower-then-raise order |
| Validation.ValidationValue | KhachoWPFControls/NumericUpDown.xaml.cs:214-234 | parse failure returns the current value; a parsed value lands in `[Minimum, Maximum]` when the bounds are ordered, is kept when already in range, and becomes `Maximum` above it or `Minimum` below it |
| DisplayFormat.FormatString | KhachoWPFControls/NumericUpDown.xaml.cs:199 | the format string starts with `{0:F` and reads back as exactly the number of places it was built from |
| DisplayFormat.ParseIntToString | KhachoWPFControls/NumericUpDown.xaml.cs:199 | the decimal text of `DecimalPlaces` reads back as the same integer |
| DisplayFormat.IntToStringParse | KhachoWPFControls/NumericUpDown.xaml.cs:199 | only the canonical decimal text of an integer reads back as it |
| DisplayFormat.FormatStringRoundTrip | KhachoWPFControls/NumericUpDown.xaml.cs:199 | `{0:F<n>}` reads back as `n`, and any string that reads back as `n` is that format string |
| DisplayFormat.FormatStringInjective | KhachoWPFControls/NumericUpDown.xaml.cs:199 | different numbers of places give different format strings |
| DisplayFormat.InitialFormatIsZeroPlaces | KhachoWPFControls/NumericUpDown.xaml.cs:112 | the initial format string `{0:F0}` is the one for zero places |
| NumericUpDown.ColumnSpan | KhachoWPFControls/NumericUpDown.xaml.cs:171 | the text box spans one column exactly when the arrows are `Visible`, two otherwise |
| NumericUpDown.Init | KhachoWPFControls/NumericUpDown.xaml.cs:112-149 | a new control has value 0 in `[0, 100]`, zero places with format `{0:F0}`, visible arrows beside a one-column text box, and no notification raised |
| NumericUpDown.SetValue | KhachoWPFControls/NumericUpDown.xaml.cs:179-186 | `Value` is stored without range correction; the change handler, which raises `ValueChanged` to any attached handler, runs iff the value changes; nothing else changes |
| NumericUpDown.Increase | KhachoWPFControls/NumericUpDown.xaml.cs:260-263 | adds exactly 1, leaves the range when at `Maximum`, notifies once, changes nothing else |
| NumericUpDown.Decrease | KhachoWPFControls/NumericUpDown.xaml.cs:265-268 | subtracts exactly 1, leaves the range when at `Minimum`, notifies once, changes nothing else |
| NumericUpDown.IncreaseThenDecrease | KhachoWPFControls/NumericUpDown.xaml.cs:260-268 | an increase followed by a decrease restores the control except for two notifications |
| NumericUpDown.ValueString | KhachoWPFControls/NumericUpDown.xaml.cs:96 | reading gives the value rendered with the format for the current number of places |
| NumericUpDown.SetValueString | KhachoWPFControls/NumericUpDown.xaml.cs:94-102 | a parse failure changes nothing; a parsed value is stored as `ValidationValue` gives it: kept when in range, `Maximum` above it, `Minimum` below ordered bounds, `Maximum` for inverted bounds; only the value and notification count change |
| NumericUpDown.ParseFailureKeepsOutOfRangeValue | KhachoWPFControls/NumericUpDown.xaml.cs:220-224 | a parse failure keeps even an out-of-range value |
| NumericUpDown.SetValueStringIdempotent | KhachoWPFControls/NumericUpDown.xaml.cs:94-102 | committing the same text twice has the effect of committing it once |
| NumericUpDown.SetDecimalPlaces | KhachoWPFControls/NumericUpDown.xaml.cs:193-202 | when the number of places changes, the format string becomes the one for the new number (and reads back as it) and the text box shows the value rendered with it; assigning the current number changes nothing; the value is never touched |
| NumericUpDown.SetArrowsVisibility | KhachoWPFControls/NumericUpDown.xaml.cs:161-172 | both arrows take the new visibility and the text box spans one column iff it is `Visible` |
| NumericUpDown.HidingArrowsWidensText | KhachoWPFControls/NumericUpDown.xaml.cs:167-171 | hiding visible arrows widens the text box from one column to two |
| NumericUpDown.SetMinimum | KhachoWPFControls/NumericUpDown.xaml.cs:80 | only the bound changes; the value is not corrected |
| NumericUpDown.SetMaximum | KhachoWPFControls/NumericUpDown.xaml.cs:75 | only the bound changes; the value is not corrected |
| NumericUpDown.TextInput | KhachoWPFControls/NumericUpDown.xaml.cs:301-326 | a rejected string leaves the control unchanged; an admitted one is spliced into the text; a single character keeps at most one comma and one minus; the value never changes |
| NumericUpDown.TypeSessionPreservesText | KhachoWPFControls/NumericUpDown.xaml.cs:301-326 | a typing session of single characters keeps at most one comma and one minus, the value, and the format/layout invariant |

## Left out

- Text.IsDigit: only ASCII `0`-`9`; the host's digit test also accepts the other Unicode decimal digits.
- The meaning of `decimal.TryParse` (culture, separators, exponents) and of `F` formatting and rounding: both are host library calls, kept as parameters.
- The 28-digit precision of `decimal` and the overflow of `Value++` at its maximum: the value is an unbounded `real`.
- `DecimalPlaces` is an `int` without the 32-bit bound; only its decimal text is used, and the '-' sign of negative numbers assumes the invariant culture's sign.
- The markup file of the control is not part of this model: `Init` takes the initial text as a parameter and assumes the markup shows both arrows beside a one-column text box.
- The data binding between the text box and `Value`/`ValueString` lives in that markup; the model has the text change only by typing and by `SetDecimalPlaces`.
- Dependency-property registration, `GetValue`/`SetValue` and the dispatcher hop when `DecimalPlaces` changes: host plumbing, collapsed into direct state updates.
- Focus, mouse-capture and double-click select-all, `SelectAll`, Enter-key focus traversal, the fixed height of 22 and the `Visible` property: user-interface behaviour with no state in the model.
- The unused comma position computed before the filter and the commented-out fractional-digit limit: they have no effect on the outcome.
- The display text having exactly `n` fractional digits after `SetDecimalPlaces(n)`: that is a property of the host's formatting, which is a parameter.
