/** The quiz itself, as values: the flashcards, the application state and
    the transitions one frame's click can cause on each screen, with the
    per-option colour policy and the invariants every transition keeps. */
module Quiz {
  import opened Wrappers
  import opened Widgets

  /** A multiple-choice question; `correctAnswer` indexes `options`. */
  datatype Flashcard = Flashcard(question: string, options: seq<string>, correctAnswer: int)
  {
    predicate WellFormed()
    {
      0 <= correctAnswer < |options|
    }
  }

  /** The fixed deck the application starts with. */
  function SampleDeck(): (deck: seq<Flashcard>)
    ensures |deck| == 3
    ensures forall c :: c in deck ==> c.WellFormed() && |c.options| == 4
  {
    [ Flashcard("What is the capital of France?", ["Berlin", "London", "Paris", "Madrid"], 2),
      Flashcard("Which planet is known as the Red Planet?", ["Venus", "Mars", "Jupiter", "Saturn"], 1),
      Flashcard("What is 7 x 8?", ["54", "56", "64", "72"], 1) ]
  }

  datatype Screen = Home | Cards

  /** The application's mutable state; `exited` stands for the process
      having terminated. */
  datatype AppState = AppState(
    screen: Screen,
    cardIndex: int,
    selected: Option<int>,
    submitted: bool,
    exited: bool)

  const Initial := AppState(Home, 0, None, false, false)

  /** What every reachable state satisfies for the deck `deck`: the card
      index is in range, a submission always has a selection behind it, and
      a selection names an option of the current card. */
  ghost predicate Inv(s: AppState, deck: seq<Flashcard>)
  {
    0 <= s.cardIndex < |deck| &&
    (s.submitted ==> s.selected.Some?) &&
    (s.selected.Some? ==> 0 <= s.selected.value < |deck[s.cardIndex].options|)
  }

  lemma InitialValid(deck: seq<Flashcard>)
    requires |deck| > 0
    ensures Inv(Initial, deck)
  {
  }

  // ---------------------------------------------------------------------
  // Home screen

  const StartLabel := "Start Flashcards"
  const SettingsLabel := "Settings"
  const ExitLabel := "Exit"

  /** "Start Flashcards": show the cards from the first one, with no
      selection and nothing submitted. */
  function StartCards(s: AppState): AppState
  {
    s.(screen := Cards, cardIndex := 0, selected := None, submitted := false)
  }

  /** Whether button `b` is clicked this frame. */
  predicate Hit(b: Button, pos: Point, clicked: bool)
  {
    Contains(b.rect, pos) && clicked
  }

  /** The position of the first clicked "Exit" button, or `|bs|` if none is
      clicked: the home loop ends there. */
  function FirstExit(bs: seq<Button>, pos: Point, clicked: bool): (k: nat)
    ensures k <= |bs|
    ensures forall j :: 0 <= j < k ==> !(Hit(bs[j], pos, clicked) && bs[j].text == ExitLabel)
    ensures k < |bs| ==> Hit(bs[k], pos, clicked) && bs[k].text == ExitLabel
    decreases |bs|
  {
    if |bs| == 0 then 0
    else if Hit(bs[0], pos, clicked) && bs[0].text == ExitLabel then 0
    else 1 + FirstExit(bs[1..], pos, clicked)
  }

  /** How many home buttons the loop examines (and so re-shades). */
  function HomeReach(bs: seq<Button>, pos: Point, clicked: bool): nat
  {
    var e := FirstExit(bs, pos, clicked);
    if e < |bs| then e + 1 else |bs|
  }

  /** Whether some "Start Flashcards" button among the first `k` is clicked. */
  predicate StartHitBefore(bs: seq<Button>, k: int, pos: Point, clicked: bool)
    requires k <= |bs|
  {
    exists j :: 0 <= j < k && Hit(bs[j], pos, clicked) && bs[j].text == StartLabel
  }

  /** One frame of the home screen: buttons are examined in order; a clicked
      "Start Flashcards" starts the cards, a clicked "Exit" terminates and
      ends the frame, anything else ("Settings") does nothing. */
  function HomeFrame(s: AppState, bs: seq<Button>, pos: Point, clicked: bool): (r: AppState)
    ensures r.exited <==> s.exited || exists j :: 0 <= j < |bs| && Hit(bs[j], pos, clicked) && bs[j].text == ExitLabel
  {
    var e := FirstExit(bs, pos, clicked);
    var started := if StartHitBefore(bs, e, pos, clicked) then StartCards(s) else s;
    started.(exited := s.exited || e < |bs|)
  }

  lemma HomeFrameKeepsInv(s: AppState, deck: seq<Flashcard>, bs: seq<Button>, pos: Point, clicked: bool)
    requires Inv(s, deck)
    ensures Inv(HomeFrame(s, bs, pos, clicked), deck)
  {
  }

  /** With only "Start Flashcards" clicked, the cards start afresh. */
  lemma StartResetsProgress(s: AppState, bs: seq<Button>, pos: Point, clicked: bool, j: int)
    requires 0 <= j < |bs| && Hit(bs[j], pos, clicked) && bs[j].text == StartLabel
    requires forall k :: 0 <= k < |bs| ==> !(Hit(bs[k], pos, clicked) && bs[k].text == ExitLabel)
    ensures HomeFrame(s, bs, pos, clicked) == StartCards(s)
    ensures HomeFrame(s, bs, pos, clicked).screen == Cards
    ensures HomeFrame(s, bs, pos, clicked).cardIndex == 0
    ensures HomeFrame(s, bs, pos, clicked).selected == None
    ensures !HomeFrame(s, bs, pos, clicked).submitted
  {
  }

  /** A frame whose clicks land on no "Start Flashcards" and no "Exit"
      button (so only on "Settings", or nowhere) changes nothing. */
  lemma SettingsChangesNothing(s: AppState, bs: seq<Button>, pos: Point, clicked: bool)
    requires forall k :: 0 <= k < |bs| && Hit(bs[k], pos, clicked) ==>
               bs[k].text != StartLabel && bs[k].text != ExitLabel
    ensures HomeFrame(s, bs, pos, clicked) == s
  {
  }

  // ---------------------------------------------------------------------
  // Cards screen

  /** Whether option `i` of the current card is clicked this frame. */
  predicate OptionHit(optionAt: nat -> Rect, i: nat, pos: Point, clicked: bool)
  {
    Contains(optionAt(i), pos) && clicked
  }

  /** The selection after the option buttons `0 .. n-1` are checked in order
      (before submission): each clicked option overwrites the selection. */
  function ScanOptions(optionAt: nat -> Rect, n: nat, pos: Point, clicked: bool, sel: Option<int>): (r: Option<int>)
    ensures r == sel || (r.Some? && 0 <= r.value < n && OptionHit(optionAt, r.value, pos, clicked))
    decreases n
  {
    if n == 0 then sel
    else if OptionHit(optionAt, n - 1, pos, clicked) then Some(n - 1)
    else ScanOptions(optionAt, n - 1, pos, clicked, sel)
  }

  /** The last clicked option wins; with none clicked the selection stays. */
  lemma {:induction false} ScanOptionsLastHit(optionAt: nat -> Rect, n: nat, pos: Point, clicked: bool, sel: Option<int>)
    ensures (forall i :: 0 <= i < n ==> !OptionHit(optionAt, i, pos, clicked)) ==>
              ScanOptions(optionAt, n, pos, clicked, sel) == sel
    ensures forall i :: 0 <= i < n && OptionHit(optionAt, i, pos, clicked) ==>
              (var r := ScanOptions(optionAt, n, pos, clicked, sel);
               r.Some? && i <= r.value < n && OptionHit(optionAt, r.value, pos, clicked) &&
               forall k :: r.value < k < n ==> !OptionHit(optionAt, k, pos, clicked))
  {
    if n > 0 {
      ScanOptionsLastHit(optionAt, n - 1, pos, clicked, sel);
    }
  }

  /** "Next" is overloaded: after a submission it advances (wrapping after the
      last card) and clears the answer; before it, with a selection, it
      submits; with nothing selected it does nothing. */
  function PressNext(s: AppState, count: nat): (r: AppState)
    requires count > 0
    ensures r.screen == s.screen && r.exited == s.exited
    ensures r == s || r.submitted != s.submitted
    ensures r.submitted ==> r.selected == s.selected && r.cardIndex == s.cardIndex
  {
    if s.submitted then
      s.(cardIndex := (s.cardIndex + 1) % count, selected := None, submitted := false)
    else if s.selected.Some? then
      s.(submitted := true)
    else
      s
  }

  lemma NextAdvances(s: AppState, deck: seq<Flashcard>)
    requires Inv(s, deck) && s.submitted
    ensures PressNext(s, |deck|) == s.(cardIndex := (s.cardIndex + 1) % |deck|, selected := None, submitted := false)
    ensures 0 <= PressNext(s, |deck|).cardIndex < |deck|
  {
  }

  lemma NextSubmits(s: AppState, count: nat)
    requires count > 0 && !s.submitted && s.selected.Some?
    ensures PressNext(s, count) == s.(submitted := true)
  {
  }

  lemma NextWithoutSelectionDoesNothing(s: AppState, count: nat)
    requires count > 0 && !s.submitted && s.selected.None?
    ensures PressNext(s, count) == s
  {
  }

  /** One frame of the cards screen, in the order the handler runs: the
      option buttons (only before submission), then "Back", then "Next" —
      which sees the selection the options just wrote. */
  function CardsFrame(s: AppState, deck: seq<Flashcard>, optionAt: nat -> Rect,
                      back: Rect, next: Rect, pos: Point, clicked: bool): (r: AppState)
    requires 0 <= s.cardIndex < |deck|
    ensures Inv(s, deck) ==> Inv(r, deck)
    ensures 0 <= r.cardIndex < |deck|
    ensures r.exited == s.exited
    ensures !clicked ==> r == s
  {
    var card := deck[s.cardIndex];
    var afterOptions :=
      if s.submitted then s
      else s.(selected := ScanOptions(optionAt, |card.options|, pos, clicked, s.selected));
    var afterBack := if Contains(back, pos) && clicked then afterOptions.(screen := Home) else afterOptions;
    if Contains(next, pos) && clicked then PressNext(afterBack, |deck|) else afterBack
  }

  /** After submission, clicking options leaves the selection alone. */
  lemma SubmittedSelectionFrozen(s: AppState, deck: seq<Flashcard>, optionAt: nat -> Rect,
                                 back: Rect, next: Rect, pos: Point, clicked: bool)
    requires 0 <= s.cardIndex < |deck| && s.submitted
    requires !(Contains(next, pos) && clicked)
    ensures CardsFrame(s, deck, optionAt, back, next, pos, clicked).selected == s.selected
    ensures CardsFrame(s, deck, optionAt, back, next, pos, clicked).submitted
  {
  }

  /** Before submission, a click on option `i` (and on no later option, nor
      on Next) selects exactly `i`. */
  lemma ClickSelectsOption(s: AppState, deck: seq<Flashcard>, optionAt: nat -> Rect,
                           back: Rect, next: Rect, pos: Point, i: nat)
    requires 0 <= s.cardIndex < |deck| && !s.submitted
    requires i < |deck[s.cardIndex].options| && Contains(optionAt(i), pos)
    requires forall k :: i < k < |deck[s.cardIndex].options| ==> !Contains(optionAt(k), pos)
    requires !Contains(next, pos)
    ensures CardsFrame(s, deck, optionAt, back, next, pos, true).selected == Some(i)
    ensures !CardsFrame(s, deck, optionAt, back, next, pos, true).submitted
  {
    LastHitSelects(optionAt, |deck[s.cardIndex].options|, pos, s.selected, i);
  }

  /** "Back" returns to the home screen and keeps all progress. */
  lemma BackKeepsProgress(s: AppState, deck: seq<Flashcard>, optionAt: nat -> Rect,
                          back: Rect, next: Rect, pos: Point)
    requires 0 <= s.cardIndex < |deck|
    requires Contains(back, pos) && !Contains(next, pos)
    requires forall k :: 0 <= k < |deck[s.cardIndex].options| ==> !Contains(optionAt(k), pos)
    ensures CardsFrame(s, deck, optionAt, back, next, pos, true) == s.(screen := Home)
  {
    ScanOptionsLastHit(optionAt, |deck[s.cardIndex].options|, pos, true, s.selected);
  }

  // ---------------------------------------------------------------------
  // Option colours

  /** The colour of option `i` of a card whose right answer is `correct`. */
  function OptionColor(s: AppState, correct: int, i: int): (c: Color)
    ensures c == Green <==> s.submitted && i == correct
    ensures c == Red <==> s.submitted && i != correct && s.selected == Some(i)
    ensures c == Yellow <==> !s.submitted && s.selected == Some(i)
    ensures c in {Green, Red, Yellow, LightBlue}
  {
    if s.submitted then
      if i == correct then Green
      else if s.selected == Some(i) && i != correct then Red
      else LightBlue
    else
      if s.selected != Some(i) then LightBlue else Yellow
  }

  /** How many of the options `0 .. n-1` are shown in colour `c`. */
  function CountColor(s: AppState, correct: int, n: nat, c: Color): nat
  {
    if n == 0 then 0
    else CountColor(s, correct, n - 1, c) + (if OptionColor(s, correct, n - 1) == c then 1 else 0)
  }

  /** After submission exactly one option, the right one, is green. */
  lemma {:induction false} ExactlyOneGreen(s: AppState, correct: int, n: nat)
    requires s.submitted && 0 <= correct < n
    ensures CountColor(s, correct, n, Green) == 1
  {
    if n - 1 != correct {
      ExactlyOneGreen(s, correct, n - 1);
    } else {
      NoColorBelow(s, correct, n - 1, Green);
    }
  }

  /** After submission at most one option is red, and one is exactly when the
      selection is a wrong option on the card. */
  lemma {:induction false} AtMostOneRed(s: AppState, correct: int, n: nat)
    requires s.submitted
    ensures CountColor(s, correct, n, Red) ==
              (if s.selected.Some? && 0 <= s.selected.value < n && s.selected.value != correct then 1 else 0)
    ensures CountColor(s, correct, n, Red) <= 1
  {
    if n > 0 {
      AtMostOneRed(s, correct, n - 1);
    }
  }

  /** Before submission only the selected option is highlighted (yellow) and
      nothing is green or red. */
  lemma {:induction false} SelectionHighlighted(s: AppState, correct: int, n: nat)
    requires !s.submitted
    ensures CountColor(s, correct, n, Yellow) ==
              (if s.selected.Some? && 0 <= s.selected.value < n then 1 else 0)
    ensures CountColor(s, correct, n, Green) == 0 && CountColor(s, correct, n, Red) == 0
  {
    if n > 0 {
      SelectionHighlighted(s, correct, n - 1);
    }
  }

  lemma {:induction false} NoColorBelow(s: AppState, correct: int, n: nat, c: Color)
    requires forall i :: 0 <= i < n ==> OptionColor(s, correct, i) != c
    ensures CountColor(s, correct, n, c) == 0
  {
    if n > 0 {
      NoColorBelow(s, correct, n - 1, c);
    }
  }

  // ---------------------------------------------------------------------
  // Going round the deck

  /** What a click on option `i` does: before submission it becomes the
      selection and nothing else changes; after submission it is ignored. */
  function SelectOption(s: AppState, i: int): (r: AppState)
    ensures s.submitted ==> r == s
    ensures !s.submitted ==> r.selected == Some(i) && r.(selected := s.selected) == s
  {
    if s.submitted then s else s.(selected := Some(i))
  }

  /** Select option `choice`, press Next to submit, press Next to advance. */
  function Round(s: AppState, count: nat, choice: int): AppState
    requires count > 0
  {
    PressNext(PressNext(SelectOption(s, choice), count), count)
  }

  /** One round per entry of `choices`, in order, each picking its option. */
  function Rounds(s: AppState, count: nat, choices: seq<int>): AppState
    requires count > 0
    decreases |choices|
  {
    if |choices| == 0 then s
    else Round(Rounds(s, count, choices[..|choices| - 1]), count, choices[|choices| - 1])
  }

  lemma ModUnique(x: int, n: int, q: int, r: int)
    requires n > 0 && 0 <= r < n && x == q * n + r
    ensures x % n == r
  {
    var d := q - x / n;
    assert d * n == x % n - r;
  }

  lemma ModSucc(a: int, n: int)
    requires n > 0
    ensures (a % n + 1) % n == (a + 1) % n
  {
    var q := a / n;
    if a % n + 1 == n {
      ModUnique(a + 1, n, q + 1, 0);
      ModUnique(a % n + 1, n, 1, 0);
    } else {
      ModUnique(a + 1, n, q, a % n + 1);
      ModUnique(a % n + 1, n, 0, a % n + 1);
    }
  }

  /** After one select-submit-advance round per entry of `choices` (any
      option on each card) from an unsubmitted state, the card index has
      moved on `|choices|` places, modulo the deck size, and the
      answer is cleared. */
  lemma {:induction false} RoundsAdvance(s: AppState, count: nat, choices: seq<int>)
    requires count > 0 && 0 <= s.cardIndex < count && !s.submitted
    ensures Rounds(s, count, choices).cardIndex == (s.cardIndex + |choices|) % count
    ensures !Rounds(s, count, choices).submitted
    ensures |choices| > 0 ==> Rounds(s, count, choices).selected == None
  {
    if |choices| > 0 {
      RoundsAdvance(s, count, choices[..|choices| - 1]);
      ModSucc(s.cardIndex + |choices| - 1, count);
    } else {
      assert s.cardIndex % count == s.cardIndex;
    }
  }

  // ---------------------------------------------------------------------
  // Single clicks as card frames

  /** A click whose last option under the pointer is `i` selects `i`. */
  lemma LastHitSelects(optionAt: nat -> Rect, n: nat, pos: Point, sel: Option<int>, i: nat)
    requires i < n && Contains(optionAt(i), pos)
    requires forall k :: i < k < n ==> !Contains(optionAt(k), pos)
    ensures ScanOptions(optionAt, n, pos, true, sel) == Some(i)
  {
    ScanOptionsLastHit(optionAt, n, pos, true, sel);
    assert OptionHit(optionAt, i, pos, true);
    var r := ScanOptions(optionAt, n, pos, true, sel);
    assert r.Some? && i <= r.value && OptionHit(optionAt, r.value, pos, true);
  }

  /** A frame whose click lands on Next alone is exactly `PressNext`. */
  lemma NextClickIsPressNext(s: AppState, deck: seq<Flashcard>, optionAt: nat -> Rect,
                             back: Rect, next: Rect, pos: Point)
    requires 0 <= s.cardIndex < |deck|
    requires Contains(next, pos) && !Contains(back, pos)
    requires forall k :: 0 <= k < |deck[s.cardIndex].options| ==> !Contains(optionAt(k), pos)
    ensures CardsFrame(s, deck, optionAt, back, next, pos, true) == PressNext(s, |deck|)
  {
    ScanOptionsLastHit(optionAt, |deck[s.cardIndex].options|, pos, true, s.selected);
  }

  /** A frame whose click lands on option `i` (the last option under the
      pointer) and on neither Back nor Next is exactly `SelectOption`. */
  lemma OptionClickIsSelectOption(s: AppState, deck: seq<Flashcard>, optionAt: nat -> Rect,
                                  back: Rect, next: Rect, pos: Point, i: nat)
    requires 0 <= s.cardIndex < |deck|
    requires i < |deck[s.cardIndex].options| && Contains(optionAt(i), pos)
    requires forall k :: i < k < |deck[s.cardIndex].options| ==> !Contains(optionAt(k), pos)
    requires !Contains(next, pos) && !Contains(back, pos)
    ensures CardsFrame(s, deck, optionAt, back, next, pos, true) == SelectOption(s, i)
  {
    if !s.submitted {
      LastHitSelects(optionAt, |deck[s.cardIndex].options|, pos, s.selected, i);
    }
  }

  /** Within one frame Next sees the selection the option loop just wrote:
      a click on option `i` that also lands on Next selects and submits. */
  lemma SelectAndSubmitSameFrame(s: AppState, deck: seq<Flashcard>, optionAt: nat -> Rect,
                                 back: Rect, next: Rect, pos: Point, i: nat)
    requires 0 <= s.cardIndex < |deck| && !s.submitted
    requires i < |deck[s.cardIndex].options| && Contains(optionAt(i), pos)
    requires forall k :: i < k < |deck[s.cardIndex].options| ==> !Contains(optionAt(k), pos)
    requires Contains(next, pos) && !Contains(back, pos)
    ensures CardsFrame(s, deck, optionAt, back, next, pos, true) == s.(selected := Some(i), submitted := true)
  {
    LastHitSelects(optionAt, |deck[s.cardIndex].options|, pos, s.selected, i);
  }

  /** A round is three card frames: a click on option `choice` at `pick`,
      then two clicks on Next alone at `press`. */
  lemma RoundIsThreeFrames(s: AppState, deck: seq<Flashcard>, optionAt: nat -> Rect,
                           back: Rect, next: Rect, pick: Point, press: Point, choice: nat)
    requires 0 <= s.cardIndex < |deck| && !s.submitted
    requires choice < |deck[s.cardIndex].options| && Contains(optionAt(choice), pick)
    requires forall k :: choice < k < |deck[s.cardIndex].options| ==> !Contains(optionAt(k), pick)
    requires !Contains(next, pick) && !Contains(back, pick)
    requires Contains(next, press) && !Contains(back, press)
    requires forall k :: 0 <= k < |deck[s.cardIndex].options| ==> !Contains(optionAt(k), press)
    ensures var f1 := CardsFrame(s, deck, optionAt, back, next, pick, true);
            var f2 := CardsFrame(f1, deck, optionAt, back, next, press, true);
            CardsFrame(f2, deck, optionAt, back, next, press, true) == Round(s, |deck|, choice)
  {
    OptionClickIsSelectOption(s, deck, optionAt, back, next, pick, choice);
    var f1 := SelectOption(s, choice);
    NextClickIsPressNext(f1, deck, optionAt, back, next, press);
    var f2 := PressNext(f1, |deck|);
    NextClickIsPressNext(f2, deck, optionAt, back, next, press);
  }

  /** With the three sample cards, run as card frames: start on card 0,
      click option 2 (Paris, the right answer), click Next to submit (Paris
      shows green, and a further click on option 0 is ignored), click Next
      again — the second card is shown with no selection and nothing
      submitted. `pick2`, `pick0` and `press` are click positions on option
      2, option 0 and Next alone. */
  lemma FirstCardScenario(optionAt: nat -> Rect, back: Rect, next: Rect,
                          pick2: Point, pick0: Point, press: Point)
    requires Contains(optionAt(2), pick2) && !Contains(optionAt(3), pick2)
    requires !Contains(next, pick2) && !Contains(back, pick2)
    requires Contains(optionAt(0), pick0)
    requires forall k :: 0 < k < 4 ==> !Contains(optionAt(k), pick0)
    requires !Contains(next, pick0) && !Contains(back, pick0)
    requires Contains(next, press) && !Contains(back, press)
    requires forall k :: 0 <= k < 4 ==> !Contains(optionAt(k), press)
    ensures var deck := SampleDeck();
            var s0 := StartCards(Initial);
            var s1 := CardsFrame(s0, deck, optionAt, back, next, pick2, true);
            var s2 := CardsFrame(s1, deck, optionAt, back, next, press, true);
            var s3 := CardsFrame(s2, deck, optionAt, back, next, press, true);
            s1.selected == Some(2) && !s1.submitted &&
            s2.submitted && s2.selected == Some(2) &&
            OptionColor(s2, deck[0].correctAnswer, 2) == Green &&
            CardsFrame(s2, deck, optionAt, back, next, pick0, true) == s2 &&
            s3.screen == Cards && s3.cardIndex == 1 && s3.selected == None && !s3.submitted
  {
    var deck := SampleDeck();
    var s0 := StartCards(Initial);
    OptionClickIsSelectOption(s0, deck, optionAt, back, next, pick2, 2);
    var s1 := SelectOption(s0, 2);
    NextClickIsPressNext(s1, deck, optionAt, back, next, press);
    var s2 := PressNext(s1, |deck|);
    OptionClickIsSelectOption(s2, deck, optionAt, back, next, pick0, 0);
    NextClickIsPressNext(s2, deck, optionAt, back, next, press);
  }
}
