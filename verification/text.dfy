/**
 Occurrence counting over strings, and the text edit the host text box performs
 when it admits a composition string: the string replaces the current selection
 (an empty selection is a plain insertion at the caret).
 */
module Text {

  /** Decimal digit test (ASCII digits). */
  predicate IsDigit(c: char)
  {
    '0' <= c <= '9'
  }

  /** Number of occurrences of `c` in `s`. */
  function Count(s: string, c: char): (n: nat)
    ensures n <= |s|
  {
    if s == [] then 0
    else (if s[0] == c then 1 else 0) + Count(s[1..], c)
  }

  /** At most one decimal comma and at most one minus sign. */
  predicate AtMostOneCommaAndMinus(s: string)
  {
    Count(s, ',') <= 1 && Count(s, '-') <= 1
  }

  lemma {:induction false} CountConcat(a: string, b: string, c: char)
    ensures Count(a + b, c) == Count(a, c) + Count(b, c)
    decreases |a|
  {
    if a == [] {
      assert a + b == b;
    } else {
      assert (a + b)[1..] == a[1..] + b;
      CountConcat(a[1..], b, c);
    }
  }

  lemma {:induction false} CountZeroIffAbsent(s: string, c: char)
    ensures Count(s, c) == 0 <==> c !in s
    decreases |s|
  {
    if s != [] {
      CountZeroIffAbsent(s[1..], c);
      assert s == [s[0]] + s[1..];
    }
  }

  /** Start of the replaced range: the caret, kept inside the text. */
  function SpliceStart(t: string, caret: nat): (i: nat)
    ensures i <= |t|
    ensures caret <= |t| ==> i == caret
  {
    if caret <= |t| then caret else |t|
  }

  /** End of the replaced range: caret plus selection length, kept inside the text. */
  function SpliceEnd(t: string, caret: nat, selection: nat): (j: nat)
    ensures SpliceStart(t, caret) <= j <= |t|
    ensures caret + selection <= |t| ==> j == caret + selection
  {
    var i := SpliceStart(t, caret);
    if i + selection <= |t| then i + selection else |t|
  }

  /** `t` with the selection `[caret, caret + selection)` replaced by `ins`. */
  function Splice(t: string, caret: nat, selection: nat, ins: string): (r: string)
    ensures |r| == |t| - (SpliceEnd(t, caret, selection) - SpliceStart(t, caret)) + |ins|
    ensures r[..SpliceStart(t, caret)] == t[..SpliceStart(t, caret)]
    ensures r[SpliceStart(t, caret)..SpliceStart(t, caret) + |ins|] == ins
    ensures r[SpliceStart(t, caret) + |ins|..] == t[SpliceEnd(t, caret, selection)..]
  {
    var i := SpliceStart(t, caret);
    var j := SpliceEnd(t, caret, selection);
    var r := t[..i] + ins + t[j..];
    assert r[..i] == t[..i];
    assert r[i..i + |ins|] == ins;
    assert r[i + |ins|..] == t[j..];
    r
  }

  /** A splice keeps the occurrences outside the selection and adds those of the inserted string. */
  lemma SpliceCount(t: string, caret: nat, selection: nat, ins: string, c: char)
    ensures Count(Splice(t, caret, selection, ins), c) <= Count(t, c) + Count(ins, c)
  {
    var i := SpliceStart(t, caret);
    var j := SpliceEnd(t, caret, selection);
    assert t == t[..i] + t[i..j] + t[j..];
    CountConcat(t[..i] + t[i..j], t[j..], c);
    CountConcat(t[..i], t[i..j], c);
    assert Splice(t, caret, selection, ins) == t[..i] + ins + t[j..];
    CountConcat(t[..i] + ins, t[j..], c);
    CountConcat(t[..i], ins, c);
  }
}
