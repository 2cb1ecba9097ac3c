/** The running application: the per-frame event poll and the
    `FlashcardApp` object whose handlers update its screen and answer state
    in place. Each handler is proved against the matching frame function of
    module Quiz. */
module App {
  import opened Wrappers
  import opened Widgets
  import opened Quiz

  /** A press of the left mouse button. */
  predicate IsLeftPress(e: Event)
  {
    e.MouseDown? && e.button == 1
  }

  /** Drains one frame's events: the frame has a click iff some event is a
      left-button press, and asks to quit iff some event is Quit. */
  method PollEvents(events: seq<Event>) returns (clicked: bool, quit: bool)
    ensures clicked <==> exists k :: 0 <= k < |events| && IsLeftPress(events[k])
    ensures quit <==> exists k :: 0 <= k < |events| && events[k].Quit?
  {
    clicked, quit := false, false;
    var i := 0;
    while i < |events|
      invariant 0 <= i <= |events|
      invariant clicked <==> exists k :: 0 <= k < i && IsLeftPress(events[k])
      invariant quit <==> exists k :: 0 <= k < i && events[k].Quit?
    {
      var event := events[i];
      if event.Quit? {
        quit := true;
      }
      if event.MouseDown? {
        if event.button == 1 {
          clicked := true;
        }
      }
      i := i + 1;
    }
  }

  /** One whole frame: poll, run the current screen's handler, then
      terminate if a Quit event arrived. */
  function Frame(s: AppState, deck: seq<Flashcard>, homeButtons: seq<Button>, optionAt: nat -> Rect,
                 back: Rect, next: Rect, events: seq<Event>, pos: Point): (r: AppState)
    requires 0 <= s.cardIndex < |deck|
    ensures Inv(s, deck) ==> Inv(r, deck)
    ensures (exists k :: 0 <= k < |events| && events[k].Quit?) ==> r.exited
    ensures s.exited ==> r.exited
    // a frame with neither a left click nor a quit request changes nothing
    ensures (!(exists k :: 0 <= k < |events| && IsLeftPress(events[k])) &&
             !(exists k :: 0 <= k < |events| && events[k].Quit?)) ==> r == s
  {
    var clicked := exists k :: 0 <= k < |events| && IsLeftPress(events[k]);
    var quit := exists k :: 0 <= k < |events| && events[k].Quit?;
    var handled :=
      if s.screen == Home then HomeFrame(s, homeButtons, pos, clicked)
      else CardsFrame(s, deck, optionAt, back, next, pos, clicked);
    handled.(exited := handled.exited || quit)
  }

  /** Where the buttons sit on screen. The source derives these from the
      display size; here they are given. */
  datatype Layout = Layout(start: Rect, settings: Rect, exit: Rect,
                           back: Rect, next: Rect, optionAt: nat -> Rect)

  class FlashcardApp {
    var currentState: Screen
    var currentCardIndex: int
    var selectedOption: Option<int>
    var answerSubmitted: bool
    var exited: bool

    const homeButtons: seq<Button>
    const nextButton: Button
    const backButton: Button
    const optionAt: nat -> Rect
    const flashcards: seq<Flashcard>

    function State(): AppState
      reads this
    {
      AppState(currentState, currentCardIndex, selectedOption, answerSubmitted, exited)
    }

    ghost predicate Valid()
      reads this
    {
      |flashcards| > 0 &&
      (forall c :: c in flashcards ==> c.WellFormed()) &&
      Inv(State(), flashcards) &&
      nextButton != backButton && nextButton !in homeButtons && backButton !in homeButtons &&
      (forall i, j :: 0 <= i < j < |homeButtons| ==> homeButtons[i] != homeButtons[j])
    }

    constructor (layout: Layout)
      ensures Valid() && State() == Initial && flashcards == SampleDeck()
      ensures |homeButtons| == 3
      ensures homeButtons[0].text == StartLabel && homeButtons[0].rect == layout.start
      ensures homeButtons[1].text == SettingsLabel && homeButtons[1].rect == layout.settings
      ensures homeButtons[2].text == ExitLabel && homeButtons[2].rect == layout.exit
      ensures backButton.rect == layout.back && nextButton.rect == layout.next
      ensures optionAt == layout.optionAt
      ensures fresh(homeButtons[0]) && fresh(homeButtons[1]) && fresh(homeButtons[2])
      ensures fresh(backButton) && fresh(nextButton)
    {
      var start := new Button(layout.start, StartLabel, LightBlue, DarkBlue);
      var settings := new Button(layout.settings, SettingsLabel, LightBlue, DarkBlue);
      var exit := new Button(layout.exit, ExitLabel, LightBlue, DarkBlue);
      homeButtons := [start, settings, exit];
      nextButton := new Button(layout.next, "Next", LightBlue, DarkBlue);
      backButton := new Button(layout.back, "Back", LightBlue, DarkBlue);
      optionAt := layout.optionAt;
      flashcards := SampleDeck();
      currentState := Home;
      currentCardIndex := 0;
      selectedOption := None;
      answerSubmitted := false;
      exited := false;
    }

    /** The home screen's frame: each button in turn is hover-tested and,
        when clicked, acted on by its label; "Exit" ends the program at once. */
    method HandleHomeScreen(pos: Point, clicked: bool)
      requires Valid()
      modifies this, homeButtons
      ensures Valid()
      ensures State() == HomeFrame(old(State()), homeButtons, pos, clicked)
      ensures forall j :: 0 <= j < |homeButtons| ==>
                homeButtons[j].currentColor ==
                  if j < HomeReach(homeButtons, pos, clicked) then homeButtons[j].ShadeAt(pos)
                  else old(homeButtons[j].currentColor)
    {
      ghost var s0 := State();
      ghost var e := FirstExit(homeButtons, pos, clicked);
      var i := 0;
      while i < |homeButtons|
        invariant 0 <= i <= e
        invariant State() == if StartHitBefore(homeButtons, i, pos, clicked) then StartCards(s0) else s0
        invariant forall j :: 0 <= j < |homeButtons| ==>
                    homeButtons[j].currentColor ==
                      if j < i then homeButtons[j].ShadeAt(pos) else old(homeButtons[j].currentColor)
      {
        var button := homeButtons[i];
        var hit := button.IsClicked(pos, clicked);
        if hit {
          if button.text == StartLabel {
            currentState := Cards;
            currentCardIndex := 0;
            selectedOption := None;
            answerSubmitted := false;
          } else if button.text == ExitLabel {
            exited := true;
            break;
          }
        }
        i := i + 1;
      }
    }

    /** The cards screen's frame: the option buttons of the current card in
        index order (selectable only before submission), then "Back", then
        the overloaded "Next". */
    method HandleCardsScreen(pos: Point, clicked: bool)
      requires Valid()
      modifies this, nextButton, backButton
      ensures Valid()
      ensures State() == CardsFrame(old(State()), flashcards, optionAt, backButton.rect, nextButton.rect, pos, clicked)
      ensures backButton.currentColor == backButton.ShadeAt(pos)
      ensures nextButton.currentColor == nextButton.ShadeAt(pos)
    {
      ghost var s0 := State();
      var card := flashcards[currentCardIndex];
      var i := 0;
      while i < |card.options|
        invariant 0 <= i <= |card.options|
        invariant currentState == s0.screen && currentCardIndex == s0.cardIndex
        invariant answerSubmitted == s0.submitted && exited == s0.exited
        invariant selectedOption ==
                    if s0.submitted then s0.selected
                    else ScanOptions(optionAt, i, pos, clicked, s0.selected)
        invariant nextButton.currentColor == old(nextButton.currentColor)
        invariant backButton.currentColor == old(backButton.currentColor)
      {
        var color := OptionColor(State(), card.correctAnswer, i);
        var button := new Button(optionAt(i), card.options[i], color, DarkBlue);
        if !answerSubmitted {
          var hit := button.IsClicked(pos, clicked);
          if hit {
            selectedOption := Some(i);
          }
        }
        i := i + 1;
      }

      var backHit := backButton.IsClicked(pos, clicked);
      if backHit {
        currentState := Home;
      }

      var nextHit := nextButton.IsClicked(pos, clicked);
      if nextHit {
        if answerSubmitted {
          currentCardIndex := (currentCardIndex + 1) % |flashcards|;
          selectedOption := None;
          answerSubmitted := false;
        } else if selectedOption.Some? {
          answerSubmitted := true;
        }
      }
    }

    /** One iteration of the main loop while the program is running. */
    method RunFrame(events: seq<Event>, pos: Point)
      requires Valid() && !exited
      modifies this, homeButtons, nextButton, backButton
      ensures Valid()
      ensures State() == Frame(old(State()), flashcards, homeButtons, optionAt,
                               backButton.rect, nextButton.rect, events, pos)
      ensures old(currentState) == Home ==>
                (forall j :: 0 <= j < |homeButtons| ==>
                   homeButtons[j].currentColor ==
                     if j < HomeReach(homeButtons, pos, exists k :: 0 <= k < |events| && IsLeftPress(events[k]))
                     then homeButtons[j].ShadeAt(pos)
                     else old(homeButtons[j].currentColor)) &&
                nextButton.currentColor == old(nextButton.currentColor) &&
                backButton.currentColor == old(backButton.currentColor)
      ensures old(currentState) == Cards ==>
                (forall j :: 0 <= j < |homeButtons| ==>
                   homeButtons[j].currentColor == old(homeButtons[j].currentColor)) &&
                nextButton.currentColor == nextButton.ShadeAt(pos) &&
                backButton.currentColor == backButton.ShadeAt(pos)
    {
      var clicked, quit := PollEvents(events);
      if currentState == Home {
        HandleHomeScreen(pos, clicked);
      } else if currentState == Cards {
        HandleCardsScreen(pos, clicked);
      }
      if quit {
        exited := true;
      }
    }
  }
}
