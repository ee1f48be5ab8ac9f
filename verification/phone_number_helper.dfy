/** Phone-number normalisation (flips/flips/PhoneNumberHelper.swift): strip the
    separators a user may type, then put the number in US international form,
    leniently (never fails) or strictly (fails with `None`). */
module PhoneNumberHelper {
  import opened Optionals
  import opened StringExtensions

  /** The single-character strings `cleanFormattedPhoneNumber` removes first:
      HYPHEN, LEFT_PARENTHESIS, RIGHT_PARENTHESIS, DOT_SEPARATOR (which is a
      space) and PERIOD. */
  const SEPARATORS: set<char> := {'-', '(', ')', ' ', '.'}

  /** A character that cleaning removes. */
  predicate IsSeparator(c: char) {
    c in SEPARATORS || IsWhiteSpace(c)
  }

  predicate NoSeparators(s: string) {
    forall i :: 0 <= i < |s| ==> !IsSeparator(s[i])
  }

  /** `stringByRemovingStringsIn`: every occurrence of each listed
      character is removed. */
  function RemoveStrings(s: string, chars: set<char>): (r: string)
    ensures |r| <= |s|
    ensures forall i :: 0 <= i < |r| ==> r[i] !in chars
    ensures (forall i :: 0 <= i < |s| ==> s[i] !in chars) ==> r == s
  {
    if |s| == 0 then ""
    else (if s[0] in chars then "" else [s[0]]) + RemoveStrings(s[1..], chars)
  }

  /** `cleanFormattedPhoneNumber`: the result holds no separator and a number
      that holds none is returned unchanged, so cleaning is idempotent. */
  function Clean(phoneNumber: string): (r: string)
    ensures |r| <= |phoneNumber|
    ensures NoSeparators(r)
    ensures NoSeparators(phoneNumber) ==> r == phoneNumber
  {
    RemoveWhiteSpaces(RemoveStrings(phoneNumber, SEPARATORS))
  }

  /** The shapes the strict formatter accepts: a ten-digit national number,
      the same with a leading `1`, or with a leading `+1`. */
  predicate IsUSNumber(c: string) {
    || |c| == 10
    || (|c| == 11 && c[0] == '1')
    || (|c| == 12 && c[..2] == "+1")
  }

  /** `formatUsingUSInternational`: the cleaned number, with `+1` put in
      front of ten characters and `+` in front of eleven; any other cleaned
      number is returned as it is. */
  function FormatUSInternational(phoneNumber: string): (r: string)
    ensures var c := Clean(phoneNumber);
      r == c || (|c| == 10 && r == "+1" + c) || (|c| == 11 && r == "+" + c)
    ensures NoSeparators(r)
  {
    var phone := Clean(phoneNumber);
    var phoneNumberLength := |phone|;
    if phoneNumberLength >= 2 then
      var countryCode := phone[0..2];
      if countryCode == "+1" && phoneNumberLength == 12 then phone
      else if phoneNumberLength == 10 then "+1" + phone[0..10]
      else if phoneNumberLength == 11 then "+" + phone[0..11]
      else phone
    else phone
  }

  /** `formatUsingUSInternationalStrict`: a result exists exactly for the
      recognised shapes; it is always twelve characters, `+1` followed by the
      last ten characters of the cleaned number. */
  function FormatUSInternationalStrict(phoneNumber: string): (r: Option<string>)
    ensures r.Some? <==> IsUSNumber(Clean(phoneNumber))
    ensures r.Some? ==>
      var c := Clean(phoneNumber);
      && |r.value| == 12
      && r.value[..2] == "+1"
      && r.value[2..] == c[|c| - 10..]
  {
    var phone := Clean(phoneNumber);
    var phoneNumberLength := |phone|;
    if phoneNumberLength == 10 then Some("+1" + phone)
    else if phoneNumberLength == 11 && phone[0..1] == "1" then Some("+" + phone)
    else if phoneNumberLength == 12 && phone[0..2] == "+1" then Some(phone)
    else None
  }

  /** Cleaning distributes over concatenation: it removes characters one at a
      time and keeps the others in order. */
  lemma {:induction false} CleanConcat(a: string, b: string)
    ensures Clean(a + b) == Clean(a) + Clean(b)
  {
    RemoveStringsConcat(a, b, SEPARATORS);
    RemoveWhiteSpacesConcat(RemoveStrings(a, SEPARATORS), RemoveStrings(b, SEPARATORS));
  }

  /** Cleaning one character drops it when it is a separator and keeps it
      otherwise; with `CleanConcat` this fixes what cleaning does to every
      string. */
  lemma CleanSingleton(c: char)
    ensures IsSeparator(c) ==> Clean([c]) == ""
    ensures !IsSeparator(c) ==> Clean([c]) == [c]
  {
    assert RemoveStrings([c], SEPARATORS) == (if c in SEPARATORS then "" else [c]);
  }

  /** Removing listed characters from one character drops it exactly when it
      is listed. */
  lemma RemoveStringsSingleton(c: char, chars: set<char>)
    ensures RemoveStrings([c], chars) == "" <==> c in chars
    ensures c !in chars ==> RemoveStrings([c], chars) == [c]
  {
    assert [c][1..] == "";
  }

  lemma {:induction false} RemoveStringsConcat(a: string, b: string, chars: set<char>)
    ensures RemoveStrings(a + b, chars) == RemoveStrings(a, chars) + RemoveStrings(b, chars)
  {
    if |a| > 0 {
      assert (a + b)[1..] == a[1..] + b;
      RemoveStringsConcat(a[1..], b, chars);
    } else {
      assert a + b == b;
    }
  }

  /** Every strict result is a fixpoint of strict formatting. */
  lemma StrictIsFixpoint(phoneNumber: string)
    requires FormatUSInternationalStrict(phoneNumber).Some?
    ensures var s := FormatUSInternationalStrict(phoneNumber).value;
      FormatUSInternationalStrict(s) == Some(s)
  {
    var s := FormatUSInternationalStrict(phoneNumber).value;
    assert NoSeparators(s) by {
      var c := Clean(phoneNumber);
      forall i | 0 <= i < |s| ensures !IsSeparator(s[i]) {
        if i >= 2 { assert s[i] == c[|c| - 10 + (i - 2)]; }
        else { assert s[i] == "+1"[i]; }
      }
    }
  }

  /** Whenever the strict formatter succeeds, the lenient one returns the
      same string. */
  lemma StrictAgreesWithLenient(phoneNumber: string)
    requires FormatUSInternationalStrict(phoneNumber).Some?
    ensures FormatUSInternational(phoneNumber) == FormatUSInternationalStrict(phoneNumber).value
  {
    var c := Clean(phoneNumber);
    if |c| == 11 { assert c[0..11] == c; }
    if |c| == 10 { assert c[0..10] == c; }
  }

  /** Lenient formatting is idempotent. */
  lemma LenientIdempotent(phoneNumber: string)
    ensures var s := FormatUSInternational(phoneNumber);
      FormatUSInternational(s) == s
  {
  }

  /** The lenient formatter prefixes `+` to every eleven-character number
      without looking at its first digit, so when that digit is not `1` it
      returns a twelve-character string that the strict formatter rejects,
      while the strict formatter rejects the input itself too. */
  lemma LenientElevenUnchecked(phoneNumber: string)
    requires |Clean(phoneNumber)| == 11
    ensures FormatUSInternational(phoneNumber) == "+" + Clean(phoneNumber)
    ensures Clean(phoneNumber)[0] != '1' ==>
      && FormatUSInternationalStrict(phoneNumber) == None
      && FormatUSInternationalStrict(FormatUSInternational(phoneNumber)) == None
  {
    var c := Clean(phoneNumber);
    var s := "+" + c;
    assert c[0..11] == c;
    assert NoSeparators(s) by {
      forall i | 0 <= i < |s| ensures !IsSeparator(s[i]) {
        if i >= 1 { assert s[i] == c[i - 1]; }
      }
    }
    assert s[..2] == ['+', c[0]];
  }

  /** Outside the recognised shapes the lenient formatter leaves the cleaned
      number untouched. */
  lemma LenientKeepsOthers(phoneNumber: string)
    requires var c := Clean(phoneNumber); |c| != 10 && |c| != 11
    ensures FormatUSInternational(phoneNumber) == Clean(phoneNumber)
  {
  }
}
