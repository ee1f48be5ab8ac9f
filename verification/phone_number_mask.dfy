/** The phone-entry input mask of mugchat/mugchat/PhoneNumberView.swift: the
    text-field delegate inserts hyphens so that typed digits read
    `XXX-XXX-XXXX`, removes a trailing hyphen on deletion, and refuses input
    once the field is full. The model assumes every edit happens at the end of
    the text, one character at a time. */
module PhoneNumberMask {

  const HYPHEN: char := '-'

  /** What the delegate leaves in the field, and whether UIKit may apply the
      change. */
  datatype Decision = Decision(text: string, shouldReplace: bool)

  /** `textField(_:shouldChangeCharactersInRange:replacementString:)`. A
      non-empty replacement is typing, an empty one is a deletion. */
  function ShouldChangeCharacters(text: string, replacement: string): (d: Decision)
    ensures d.shouldReplace <==> replacement == "" || |text| <= 11
    ensures replacement != "" ==> |text| <= |d.text| <= |text| + 1 && d.text[..|text|] == text
    ensures replacement != "" && |d.text| == |text| + 1 ==> d.text[|text|] == HYPHEN
    ensures replacement == "" ==> d.text == text || (|text| > 0 && d.text == text[..|text| - 1])
    ensures replacement != "" ==> (d.text == text + [HYPHEN] <==> |text| == 3 || |text| == 7)
    ensures replacement != "" ==> (d.text == text <==> |text| != 3 && |text| != 7)
    ensures replacement == "" ==> (d.text == text <==> |text| != 5 && |text| != 9)
  {
    var length := |text|;
    if replacement != "" then
      var newText := if length == 3 || length == 7 then text + [HYPHEN] else text;
      Decision(newText, !(length > 11))
    else
      var newText := if length == 5 || length == 9 then text[0..length - 1] else text;
      Decision(newText, true)
  }

  /** Typing character `c` at the end: the delegate runs, then UIKit appends
      `c` if the delegate allowed it. */
  function TypeChar(text: string, c: char): string {
    var d := ShouldChangeCharacters(text, [c]);
    if d.shouldReplace then d.text + [c] else d.text
  }

  /** Pressing delete at the end: the delegate runs, then UIKit removes the
      last character of what the field then holds. */
  function DeleteLast(text: string): string {
    var d := ShouldChangeCharacters(text, "");
    if |d.text| > 0 then d.text[..|d.text| - 1] else d.text
  }

  /** Typing `digits` one at a time into an empty field. */
  function TypeDigits(digits: string): string {
    if |digits| == 0 then ""
    else TypeChar(TypeDigits(digits[..|digits| - 1]), digits[|digits| - 1])
  }

  /** The intended mask of up to ten digits, stated independently of the
      delegate: a hyphen after the third and after the sixth digit. */
  function Masked(digits: string): (r: string)
    requires |digits| <= 10
  {
    if |digits| <= 3 then digits
    else if |digits| <= 6 then digits[..3] + [HYPHEN] + digits[3..]
    else digits[..3] + [HYPHEN] + digits[3..6] + [HYPHEN] + digits[6..]
  }

  predicate NoHyphen(s: string) {
    forall i :: 0 <= i < |s| ==> s[i] != HYPHEN
  }

  /** The mask has at most twelve characters, holds hyphens exactly at
      indices 3 and 7, and reads back the digits in order. */
  lemma MaskedShape(digits: string)
    requires |digits| <= 10 && NoHyphen(digits)
    ensures var r := Masked(digits);
      && |r| <= 12
      && |r| == |digits| + (if |digits| > 6 then 2 else if |digits| > 3 then 1 else 0)
      && (forall i :: 0 <= i < |r| ==> (r[i] == HYPHEN <==> i == 3 || i == 7))
      && RemoveHyphens(r) == digits
  {
    if |digits| <= 3 {
      RemoveHyphensNoHyphen(digits);
    } else if |digits| <= 6 {
      var a, b := digits[..3], digits[3..];
      assert digits == a + b;
      OneHyphen(a, b);
    } else {
      var a, b, c := digits[..3], digits[3..6], digits[6..];
      assert digits == a + b + c;
      TwoHyphens(a, b, c);
    }
  }

  /** The mask of four to six digits, split after the third. */
  lemma OneHyphen(a: string, b: string)
    requires |a| == 3 && |b| <= 3 && NoHyphen(a) && NoHyphen(b)
    ensures var r := a + [HYPHEN] + b;
      && (forall i :: 0 <= i < |r| ==> (r[i] == HYPHEN <==> i == 3))
      && RemoveHyphens(r) == a + b
  {
    var r := a + [HYPHEN] + b;
    forall i | 0 <= i < |r| ensures r[i] == HYPHEN <==> i == 3 {
      if i < 3 { assert r[i] == a[i]; } else if i > 3 { assert r[i] == b[i - 4]; }
    }
    RemoveHyphensConcat(a + [HYPHEN], b);
    RemoveHyphensConcat(a, [HYPHEN]);
    RemoveHyphensNoHyphen(a);
    RemoveHyphensNoHyphen(b);
  }

  /** The mask of seven to ten digits, split after the third and the
      sixth. */
  lemma TwoHyphens(a: string, b: string, c: string)
    requires |a| == 3 && |b| == 3 && |c| <= 4 && NoHyphen(a) && NoHyphen(b) && NoHyphen(c)
    ensures var r := a + [HYPHEN] + b + [HYPHEN] + c;
      && (forall i :: 0 <= i < |r| ==> (r[i] == HYPHEN <==> i == 3 || i == 7))
      && RemoveHyphens(r) == a + b + c
  {
    var left := a + [HYPHEN] + b;
    OneHyphen(a, b);
    var r := left + [HYPHEN] + c;
    forall i | 0 <= i < |r| ensures r[i] == HYPHEN <==> i == 3 || i == 7 {
      if i < 7 { assert r[i] == left[i]; } else if i > 7 { assert r[i] == c[i - 8]; }
    }
    RemoveHyphensConcat(left + [HYPHEN], c);
    RemoveHyphensConcat(left, [HYPHEN]);
    RemoveHyphensNoHyphen(c);
  }

  /** The characters of `s` other than hyphens, in order. */
  function RemoveHyphens(s: string): string {
    if |s| == 0 then "" else (if s[0] == HYPHEN then "" else [s[0]]) + RemoveHyphens(s[1..])
  }

  lemma {:induction false} RemoveHyphensConcat(a: string, b: string)
    ensures RemoveHyphens(a + b) == RemoveHyphens(a) + RemoveHyphens(b)
  {
    if |a| == 0 {
      assert a + b == b;
    } else {
      assert (a + b)[1..] == a[1..] + b;
      RemoveHyphensConcat(a[1..], b);
    }
  }

  lemma {:induction false} RemoveHyphensNoHyphen(s: string)
    requires NoHyphen(s)
    ensures RemoveHyphens(s) == s
  {
    if |s| > 0 {
      RemoveHyphensNoHyphen(s[1..]);
    }
  }

  /** One keystroke on a masked field: below ten digits it extends the mask
      by the typed digit, at ten digits it is refused and nothing changes. */
  lemma TypeCharExtendsMask(digits: string, c: char)
    requires |digits| <= 10
    ensures |digits| < 10 ==> TypeChar(Masked(digits), c) == Masked(digits + [c])
    ensures |digits| == 10 ==> TypeChar(Masked(digits), c) == Masked(digits)
  {
    var d := digits + [c];
    if |digits| < 10 {
      assert d[..|digits|] == digits;
      if |digits| < 3 {
      } else if |digits| < 6 {
        assert d[..3] == digits[..3];
        assert d[3..] == digits[3..] + [c];
      } else {
        assert d[..3] == digits[..3];
        assert d[3..6] == digits[3..6];
        assert d[6..] == digits[6..] + [c];
      }
    }
  }

  /** The first ten characters of `digits`, or all of them if fewer. */
  function FirstTen(digits: string): (r: string)
    ensures |r| <= 10 && r <= digits
    ensures |digits| <= 10 ==> r == digits
  {
    digits[..if |digits| < 10 then |digits| else 10]
  }

  /** Typing any digits into an empty field yields the intended mask of the
      first ten of them; every digit after the tenth is refused. */
  lemma {:induction false} TypeDigitsIsMasked(digits: string)
    ensures TypeDigits(digits) == Masked(FirstTen(digits))
  {
    if |digits| > 0 {
      TypeDigitsIsMasked(digits[..|digits| - 1]);
      TypeLastDigit(digits);
    }
  }

  /** The last keystroke of a session, on the mask of the digits before
      it. */
  lemma TypeLastDigit(digits: string)
    requires |digits| > 0
    ensures var prefix := digits[..|digits| - 1];
      TypeChar(Masked(FirstTen(prefix)), digits[|digits| - 1]) == Masked(FirstTen(digits))
  {
    var prefix, c := digits[..|digits| - 1], digits[|digits| - 1];
    var m := FirstTen(prefix);
    TypeCharExtendsMask(m, c);
    if |prefix| < 10 {
      assert digits == prefix + [c];
    } else {
      assert FirstTen(digits) == m;
    }
  }

  /** The claim about a whole typing session, in terms of the field text. */
  lemma TypingShape(digits: string)
    requires NoHyphen(digits)
    ensures var r := TypeDigits(digits);
      && |r| <= 12
      && (forall i :: 0 <= i < |r| ==> (r[i] == HYPHEN <==> i == 3 || i == 7))
  {
    TypeDigitsIsMasked(digits);
    assert NoHyphen(FirstTen(digits));
    MaskedShape(FirstTen(digits));
  }

  /** Deleting at the end of a masked field removes the last digit together
      with a hyphen left dangling before it: deletion undoes typing. */
  lemma DeleteUndoesType(digits: string, c: char)
    requires |digits| < 10
    ensures DeleteLast(Masked(digits + [c])) == Masked(digits)
  {
    var d := digits + [c];
    assert d[..|digits|] == digits;
    if |digits| >= 3 { assert d[..3] == digits[..3]; }
    if |digits| >= 6 { assert d[3..6] == digits[3..6]; }
    if 3 <= |digits| < 6 { assert d[3..] == digits[3..] + [c]; }
    if |digits| >= 6 { assert d[6..] == digits[6..] + [c]; }
  }
}
