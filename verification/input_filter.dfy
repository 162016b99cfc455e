/**
 The keystroke filter of the NumericUpDown text box: before a composition
 string reaches the text, the control decides from the current text and the
 string alone whether the host may insert it.
 */
module InputFilter {
  import opened Text

  /**
   Whether a composition string `input` is admitted into the text box holding `text`:
   a lone comma when the text has none, anything whose first character is a digit,
   or a lone minus when the text has none. Everything else is rejected.
   */
  predicate Admits(text: string, input: string)
    ensures input == [] ==> !Admits(text, input)
    ensures input == [','] ==> (Admits(text, input) <==> ',' !in text)
    ensures input == ['-'] ==> (Admits(text, input) <==> '-' !in text)
    ensures |input| > 0 && IsDigit(input[0]) ==> Admits(text, input)
    ensures |input| > 0 && !IsDigit(input[0]) && input != [','] && input != ['-'] ==> !Admits(text, input)
    ensures Admits(text, input) && |input| == 1 ==> IsDigit(input[0]) || input[0] !in text
  {
    if input == [] then false
    else
      (input == "," && input[0] !in text)
      || IsDigit(input[0])
      || (input == "-" && input[0] !in text)
  }

  /** One composition event: the string typed and where the host puts it. */
  datatype Keystroke = Keystroke(input: string, caret: nat, selection: nat)

  /** The text after one keystroke: spliced in when admitted, otherwise unchanged. */
  function Type(text: string, k: Keystroke): (r: string)
    ensures !Admits(text, k.input) ==> r == text
    ensures Admits(text, k.input) ==> r == Splice(text, k.caret, k.selection, k.input)
  {
    if Admits(text, k.input) then Splice(text, k.caret, k.selection, k.input) else text
  }

  /** The text after a whole sequence of keystrokes, applied in order. */
  function TypeAll(text: string, keys: seq<Keystroke>): string
    decreases |keys|
  {
    if keys == [] then text
    else Type(TypeAll(text, keys[..|keys| - 1]), keys[|keys| - 1])
  }

  /** A single admitted character never produces a second comma or a second minus. */
  lemma TypeOnePreserves(text: string, k: Keystroke)
    requires AtMostOneCommaAndMinus(text)
    requires |k.input| == 1
    ensures AtMostOneCommaAndMinus(Type(text, k))
  {
    if Admits(text, k.input) {
      SpliceCount(text, k.caret, k.selection, k.input, ',');
      SpliceCount(text, k.caret, k.selection, k.input, '-');
      if k.input[0] == ',' {
        CountZeroIffAbsent(text, ',');
      } else if k.input[0] == '-' {
        CountZeroIffAbsent(text, '-');
      }
      assert k.input == [k.input[0]];
    }
  }

  /**
   Any sequence of single-character keystrokes, each at any caret and selection,
   keeps the text at one comma and one minus at most.
   */
  lemma {:induction false} TypeAllPreserves(text: string, keys: seq<Keystroke>)
    requires AtMostOneCommaAndMinus(text)
    requires forall i :: 0 <= i < |keys| ==> |keys[i].input| == 1
    ensures AtMostOneCommaAndMinus(TypeAll(text, keys))
    decreases |keys|
  {
    if keys != [] {
      var prefix := keys[..|keys| - 1];
      assert forall i :: 0 <= i < |prefix| ==> prefix[i] == keys[i];
      TypeAllPreserves(text, prefix);
      TypeOnePreserves(TypeAll(text, prefix), keys[|keys| - 1]);
    }
  }

  /**
   The digit test looks at the first character only, so a multi-character
   composition that starts with a digit is admitted whole and can bring two commas.
   */
  lemma MultiCharacterInputEscapesFilter()
    ensures Admits("", "1,,")
    ensures !AtMostOneCommaAndMinus(Type("", Keystroke("1,,", 0, 0)))
  {
    assert Type("", Keystroke("1,,", 0, 0)) == "1,,";
    assert Count("1,,", ',') == 2 by {
      assert "1,,"[1..] == ",,";
      assert ",,"[1..] == ",";
      assert ","[1..] == "";
    }
  }
}
