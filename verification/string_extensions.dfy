/** The `String` extension that phone-number cleaning and `isCompoundText`
    rely on: removing white space. Its Swift source is not modelled here.
    White space is taken to be the ASCII space, tab, line feed, carriage
    return, vertical tab and form feed. */
module StringExtensions {
  /** The characters `removeWhiteSpaces` drops. */
  predicate IsWhiteSpace(c: char) {
    c == ' ' || c == '\t' || c == '\n' || c == '\r' || c == '\U{000B}' || c == '\U{000C}'
  }

  /** `removeWhiteSpaces`: every white-space character is removed. */
  function RemoveWhiteSpaces(s: string): (r: string)
    ensures |r| <= |s|
    ensures forall i :: 0 <= i < |r| ==> !IsWhiteSpace(r[i]) && r[i] in s
    ensures (forall i :: 0 <= i < |s| ==> !IsWhiteSpace(s[i])) ==> r == s
  {
    if |s| == 0 then ""
    else (if IsWhiteSpace(s[0]) then "" else [s[0]]) + RemoveWhiteSpaces(s[1..])
  }

  /** Removing white space distributes over concatenation. */
  lemma {:induction false} RemoveWhiteSpacesConcat(a: string, b: string)
    ensures RemoveWhiteSpaces(a + b) == RemoveWhiteSpaces(a) + RemoveWhiteSpaces(b)
  {
    if |a| > 0 {
      var head := if IsWhiteSpace(a[0]) then "" else [a[0]];
      assert (a + b)[0] == a[0] && (a + b)[1..] == a[1..] + b;
      RemoveWhiteSpacesConcat(a[1..], b);
      assert RemoveWhiteSpaces(a + b) == head + (RemoveWhiteSpaces(a[1..]) + RemoveWhiteSpaces(b));
      assert RemoveWhiteSpaces(a) == head + RemoveWhiteSpaces(a[1..]);
    } else {
      assert a + b == b;
    }
  }

  /** Removing white space leaves the string unchanged exactly when it
      holds no white space. */
  lemma RemoveWhiteSpacesUnchanged(s: string)
    ensures RemoveWhiteSpaces(s) == s <==> forall i :: 0 <= i < |s| ==> !IsWhiteSpace(s[i])
  {
    if exists i :: 0 <= i < |s| && IsWhiteSpace(s[i]) {
      RemoveWhiteSpacesShortens(s);
    }
  }

  lemma {:induction false} RemoveWhiteSpacesShortens(s: string)
    requires exists i :: 0 <= i < |s| && IsWhiteSpace(s[i])
    ensures |RemoveWhiteSpaces(s)| < |s|
  {
    if !IsWhiteSpace(s[0]) {
      var i :| 0 <= i < |s| && IsWhiteSpace(s[i]);
      assert IsWhiteSpace(s[1..][i - 1]);
      RemoveWhiteSpacesShortens(s[1..]);
    }
  }
}
