/** The three bookkeeping lists of flips/flips/ChatView.swift that record
    which phrases of the reply field were joined by hand and which were
    appended from a stock flip suggestion. */
module ChatViewFlips {
  import opened SeqUtil

  /** `flipsAppended`, `manuallyJoinedFlips` and
      `flipsManuallyJoinedPlusAppended`. */
  datatype Flips = Flips(
    flipsAppended: seq<string>,
    manuallyJoinedFlips: seq<string>,
    flipsManuallyJoinedPlusAppended: seq<string>)

  /** The lists as the view's initialiser leaves them. */
  function Init(): Flips {
    Flips([], [], [])
  }

  /** `getAppendedFlips`: the stored list, as it is. In a balanced state
      each of its phrases is in the combined list at least as often. */
  function GetAppendedFlips(f: Flips): (r: seq<string>)
    ensures r == f.flipsAppended
    ensures Balanced(f) ==> multiset(r) <= multiset(f.flipsManuallyJoinedPlusAppended)
  {
    f.flipsAppended
  }

  /** `getManuallyJoinedFlips`: the stored list, as it is. In a balanced
      state each of its phrases is in the combined list at least as often. */
  function GetManuallyJoinedFlips(f: Flips): (r: seq<string>)
    ensures r == f.manuallyJoinedFlips
    ensures Balanced(f) ==> multiset(r) <= multiset(f.flipsManuallyJoinedPlusAppended)
  {
    f.manuallyJoinedFlips
  }

  function TotalLength(f: Flips): nat {
    |f.flipsAppended| + |f.manuallyJoinedFlips| + |f.flipsManuallyJoinedPlusAppended|
  }

  /** Every phrase in the combined list is accounted for exactly once by one
      of the two other lists. */
  predicate Balanced(f: Flips) {
    multiset(f.flipsManuallyJoinedPlusAppended) == multiset(f.flipsAppended) + multiset(f.manuallyJoinedFlips)
  }

  /** `setManuallyJoined`: appends to `manuallyJoinedFlips` only. */
  function SetManuallyJoined(f: Flips, flipText: string): (r: Flips)
    ensures r.manuallyJoinedFlips == f.manuallyJoinedFlips + [flipText]
    ensures r.flipsAppended == f.flipsAppended
    ensures r.flipsManuallyJoinedPlusAppended == f.flipsManuallyJoinedPlusAppended
  {
    f.(manuallyJoinedFlips := f.manuallyJoinedFlips + [flipText])
  }

  /** `setManualPlusAppended`: appends to the combined list only. */
  function SetManualPlusAppended(f: Flips, flipText: string): (r: Flips)
    ensures r.flipsManuallyJoinedPlusAppended == f.flipsManuallyJoinedPlusAppended + [flipText]
    ensures r.flipsAppended == f.flipsAppended
    ensures r.manuallyJoinedFlips == f.manuallyJoinedFlips
  {
    f.(flipsManuallyJoinedPlusAppended := f.flipsManuallyJoinedPlusAppended + [flipText])
  }

  /** The caller's obligation of `removeFlipFromArrays`: when the phrase is in
      the combined list and not in `flipsAppended`, the force-unwrapped
      `indexOf` in `manuallyJoinedFlips` must find it. */
  predicate CanRemove(f: Flips, flipText: string) {
    flipText in f.flipsManuallyJoinedPlusAppended ==>
      flipText in f.flipsAppended || flipText in f.manuallyJoinedFlips
  }

  /** `after` is `before` with the first occurrence of `x` taken out and
      every other element kept, in order. */
  predicate Without(before: seq<string>, x: string, after: seq<string>)
    requires x in before
  {
    var i := IndexOf(before, x);
    && multiset(after) == multiset(before) - multiset{x}
    && after == before[..i] + before[i + 1..]
  }

  /** `removeFlipFromArrays`: a phrase absent from the combined list changes
      nothing; otherwise its first occurrence leaves the combined list and
      the first occurrence in `flipsAppended` (preferred) or
      `manuallyJoinedFlips` leaves that list, so two entries go in all. */
  function RemoveFlipFromArrays(f: Flips, flipText: string): (r: Flips)
    requires CanRemove(f, flipText)
    ensures flipText !in f.flipsManuallyJoinedPlusAppended ==> r == f
    ensures flipText in f.flipsManuallyJoinedPlusAppended ==>
      && multiset(r.flipsManuallyJoinedPlusAppended) == multiset(f.flipsManuallyJoinedPlusAppended) - multiset{flipText}
      && Without(f.flipsManuallyJoinedPlusAppended, flipText, r.flipsManuallyJoinedPlusAppended)
      && TotalLength(r) == TotalLength(f) - 2
    ensures flipText in f.flipsManuallyJoinedPlusAppended && flipText in f.flipsAppended ==>
      && Without(f.flipsAppended, flipText, r.flipsAppended)
      && r.manuallyJoinedFlips == f.manuallyJoinedFlips
    ensures flipText in f.flipsManuallyJoinedPlusAppended && flipText !in f.flipsAppended ==>
      && Without(f.manuallyJoinedFlips, flipText, r.manuallyJoinedFlips)
      && r.flipsAppended == f.flipsAppended
  {
    if flipText in f.flipsManuallyJoinedPlusAppended then
      var plus := RemoveFirst(f.flipsManuallyJoinedPlusAppended, flipText);
      RemoveFirstMultiset(f.flipsManuallyJoinedPlusAppended, flipText);
      if flipText in f.flipsAppended then
        RemoveFirstMultiset(f.flipsAppended, flipText);
        Flips(RemoveFirst(f.flipsAppended, flipText), f.manuallyJoinedFlips, plus)
      else
        RemoveFirstMultiset(f.manuallyJoinedFlips, flipText);
        Flips(f.flipsAppended, RemoveFirst(f.manuallyJoinedFlips, flipText), plus)
    else
      f
  }

  /** The lists start balanced. */
  lemma InitBalanced()
    ensures Balanced(Init())
  {
  }

  /** A balanced state never makes `removeFlipFromArrays` hit its force
      unwrap: the phrase is always found in one of the two other lists. */
  lemma BalancedCanRemove(f: Flips, flipText: string)
    requires Balanced(f)
    ensures CanRemove(f, flipText)
  {
    if flipText in f.flipsManuallyJoinedPlusAppended {
      assert flipText in multiset(f.flipsManuallyJoinedPlusAppended);
    }
  }

  /** Recording a manual join the way the text field does (both setters with
      the same phrase) keeps the lists balanced. */
  lemma JoinKeepsBalanced(f: Flips, flipText: string)
    requires Balanced(f)
    ensures Balanced(SetManualPlusAppended(SetManuallyJoined(f, flipText), flipText))
  {
  }

  /** Removal keeps the lists balanced. */
  lemma RemoveKeepsBalanced(f: Flips, flipText: string)
    requires Balanced(f)
    ensures CanRemove(f, flipText)
    ensures Balanced(RemoveFlipFromArrays(f, flipText))
  {
    BalancedCanRemove(f, flipText);
    var r := RemoveFlipFromArrays(f, flipText);
    var plus, appended, joined := multiset(f.flipsManuallyJoinedPlusAppended), multiset(f.flipsAppended), multiset(f.manuallyJoinedFlips);
    if flipText in f.flipsManuallyJoinedPlusAppended {
      if flipText in f.flipsAppended {
        TakeOneFromPart(appended, joined, plus, flipText);
      } else {
        assert flipText in joined;
        TakeOneFromPart(joined, appended, plus, flipText);
      }
    }
  }

  /** Taking one copy out of a sum takes it out of the part that holds it. */
  lemma TakeOneFromPart(part: multiset<string>, other: multiset<string>, whole: multiset<string>, x: string)
    requires whole == part + other && x in part
    ensures whole - multiset{x} == (part - multiset{x}) + other
  {
    forall y ensures (whole - multiset{x})[y] == ((part - multiset{x}) + other)[y] {
    }
  }
}
