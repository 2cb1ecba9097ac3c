# Flashcard quiz — a verified model

This project models the quiz logic of a small pygame flashcard application
(`main.py`). The program shows a home screen with three buttons ("Start
Flashcards", "Settings", "Exit"). It also has a card screen that shows one
multiple-choice question at a time, with one button per option plus "Back"
and "Next". "Next" does two jobs: before submission it locks in the selected
option (submit); after submission it moves to the next card, wrapping around
after the last one. Each option's colour comes from the state: yellow for
the current selection, and after submission green for the right answer, red
for a wrong selection, light blue otherwise. A reusable text box widget
(`TextInput`) is modelled too.

Files:

- `wrappers.dfy`: `Option`, which stands for Python's `None`.
- `widgets.dfy`: pygame's rectangle hit test (`Contains`, half-open like
  `Rect.collidepoint`), colours, the `Button` class (`CheckHover`,
  `IsClicked`), input events, and the `TextInput` class. The class's
  `HandleEvent` is proved against the pure editing function `Edit`.
- `quiz.dfy`: the application state as a value (`AppState`), the invariant
  `Inv`, the frame functions for each screen (`HomeFrame`, `CardsFrame`), the
  overloaded `PressNext`, the colour policy `OptionColor`, and lemmas about
  all of them.
- `app.dfy`: the per-frame event poll (`PollEvents`) and the `FlashcardApp`
  class. Its handlers change the fields in place, loop over the buttons as
  the source does, and are proved to produce exactly the state the frame
  functions give. Each also keeps `Valid()`, which includes `Inv`.

The invariant `Inv` holds in every state the application can reach:

- the card index is in `[0, |deck|)`;
- a submitted answer always has a selection;
- a selection always names an option of the current card.

`sys.exit` is modelled as the `exited` flag. Button rectangles come from a
`Layout` value, because the source computes them from the live display
size.

## Model

| member | source | states |
|---|---|---|
| `Widgets.Button.constructor` | main.py:39-48 | a new button shows its idle colour |
| `Widgets.Button.CheckHover` | main.py:58-64 | returns whether the pointer is inside the rectangle (half-open in both axes); shows the hover colour if inside and the idle colour otherwise |
| `Widgets.Button.IsClicked` | main.py:66-67 | true iff the pointer is inside AND the click flag is set; outside it is never a click; the shade is updated whatever the flag |
| `Widgets.DropLast` | main.py:87 | Python's `text[:-1]`: empty stays empty, otherwise the result plus the old last character is the old text |
| `Widgets.Edit` | main.py:79-89 | a mouse press sets `active` to exactly "press inside the box" and keeps the text; an inactive box ignores keys; Enter deactivates and keeps the text; Backspace removes at most one character and leaves a prefix; other keys append their text, so the old text is a prefix of the new; other events change nothing |
| `Widgets.BackspaceUndoesChar` | main.py:86-89 | for every box, active or not, typing one character and then pressing Backspace restores it exactly |
| `Widgets.TextInput.constructor` | main.py:71-77 | a new box is empty and inactive |
| `Widgets.TextInput.HandleEvent` | main.py:79-89 | the new text and focus are exactly `Edit` of the old ones |
| `Widgets.TextInput.GetText` | main.py:99-100 | returns the buffer verbatim |
| `Quiz.SampleDeck` | main.py:133-140 | the deck has three cards, each with four options and a correct index inside them |
| `Quiz.InitialValid` | main.py:142-144 | the starting state (home, card 0, no selection, not submitted) satisfies the invariant |
| `Quiz.FirstExit` | main.py:185-195 | the home loop stops at the first clicked "Exit" button: no earlier button is a clicked Exit, and the one it names is |
| `Quiz.HomeFrame` | main.py:185-196 | after a home frame the program has exited iff it had already, or some "Exit" button was clicked |
| `Quiz.HomeFrameKeepsInv` | main.py:187-192 | a home frame preserves the invariant |
| `Quiz.StartResetsProgress` | main.py:188-192 | clicking "Start Flashcards" (with no Exit clicked) shows the cards from card 0 with no selection and nothing submitted |
| `Quiz.SettingsChangesNothing` | main.py:196 | a frame whose clicks hit neither "Start Flashcards" nor "Exit" leaves the state unchanged |
| `Quiz.ScanOptions` | main.py:208-232 | the selection after the option loop is either the old one or a clicked option of the card |
| `Quiz.ScanOptionsLastHit` | main.py:231-232 | with no option clicked the selection stays; otherwise it is the last clicked option in index order |
| `Quiz.PressNext` | main.py:240-248 | Next never changes the screen or the exit flag; it either flips the submitted flag or does nothing; a submission keeps the card and the selection |
| `Quiz.NextAdvances` | main.py:241-245 | Next after submission moves to `(index + 1) mod deck size`, clears the selection and the submission, and the index stays in range |
| `Quiz.NextSubmits` | main.py:246-248 | Next before submission with a selection only sets `submitted` |
| `Quiz.NextWithoutSelectionDoesNothing` | main.py:240-248 | Next before submission without a selection changes nothing |
| `Quiz.CardsFrame` | main.py:198-248 | a card frame (options, then Back, then Next) preserves the invariant, keeps the card index in range, never changes the exit flag, and without a click changes nothing |
| `Quiz.SubmittedSelectionFrozen` | main.py:231-232 | after submission, option clicks (without Next) leave the selection and the submission as they were |
| `Quiz.ClickSelectsOption` | main.py:231-232 | before submission, a click on option i (and on no later option, nor on Next) selects exactly i |
| `Quiz.BackKeepsProgress` | main.py:236-237 | clicking Back alone returns to the home screen and changes nothing else |
| `Quiz.OptionColor` | main.py:216-224 | an option is green iff submitted and it is the right one; red iff submitted, selected and wrong; yellow iff not submitted and selected; otherwise light blue |
| `Quiz.ExactlyOneGreen` | main.py:216-218 | after submission exactly one option of a well-formed card is green |
| `Quiz.AtMostOneRed` | main.py:219-220 | after submission at most one option is red, and one is exactly when the selection is a wrong option of the card |
| `Quiz.SelectionHighlighted` | main.py:223-224 | before submission exactly the selected option (if any) is yellow and none is green or red |
| `Quiz.SelectOption` | main.py:231-232 | a click on option i before submission makes i the selection and changes nothing else; after submission it changes nothing |
| `Quiz.LastHitSelects` | main.py:208-232 | when option i is the last option under the clicked pointer, the option loop selects exactly i |
| `Quiz.NextClickIsPressNext` | main.py:236-248 | a card frame whose click lands on Next alone is exactly `PressNext` |
| `Quiz.OptionClickIsSelectOption` | main.py:231-237 | a card frame whose click lands on option i (the last option under the pointer) and on neither Back nor Next is exactly `SelectOption` |
| `Quiz.SelectAndSubmitSameFrame` | main.py:231-248 | Next sees the selection written earlier in the same frame: one click on option i and on Next, before submission, selects i and submits |
| `Quiz.RoundIsThreeFrames` | main.py:198-248 | a round (select, submit, advance) is exactly three card frames: a click on the option, then two clicks on Next |
| `Quiz.RoundsAdvance` | main.py:240-245 | after k rounds of select, submit and advance, each picking its own option (each round three card frames, by `RoundIsThreeFrames`), the card index is `(start + k) mod deck size` and the answer is cleared |
| `Quiz.FirstCardScenario` | main.py:198-248 | on the sample deck, run as card frames: click Paris on card 0, click Next to submit (Paris shows green, and a click on another option now leaves the state unchanged), click Next again, and card 1 is shown with no selection and nothing submitted |
| `App.PollEvents` | main.py:155-160 | the frame's click flag is set iff some event is a left-button press; quit is requested iff some event is Quit |
| `App.Frame` | main.py:150-176 | one frame preserves the invariant; a Quit event ends the program; a frame without a left click or a quit changes nothing |
| `App.FlashcardApp.constructor` | main.py:111-144 | starts on the home screen at card 0 with no selection; builds the three home buttons in order with their labels, plus Next and Back |
| `App.FlashcardApp.HandleHomeScreen` | main.py:178-196 | the new state is `HomeFrame` of the old one; the buttons up to the clicked Exit (or all of them) show the shade of their hover test (`ShadeAt`), and the rest keep their colour |
| `App.FlashcardApp.HandleCardsScreen` | main.py:198-248 | the new state is `CardsFrame` of the old one, with the selection written in place inside the loop over the current card's options; Back and Next show the shade of their hover test (`ShadeAt`) |
| `App.FlashcardApp.RunFrame` | main.py:150-176 | one loop iteration: polls, dispatches on the screen, and exits on Quit; the new state is `Frame` of the old one, and only the current screen's buttons are re-shaded |

## Left out

- Rendering is not modelled: fonts, `draw`, `blit`, text surfaces, `display.flip` and the frame clock. These are library calls with no checkable result. The model computes the option colour for each rebuilt button but draws nothing.
- The card indicator text and the "Click Next to …" hints are not modelled. They are rendering only (main.py:250-261).
- The `run` loop itself is not modelled, since it only repeats frames. One iteration is modelled as `RunFrame`, with the events and pointer position as parameters. Reading the clock and the pointer is I/O.
- `pygame.quit` and `sys.exit` are modelled as the `exited` flag. After Exit, the home loop stops examining buttons, as the terminated process would.
- Pixel geometry is not modelled: the screen size, the home, Back and Next rectangles, and the 2x2 option grid arithmetic. The rectangles are parameters (`Layout`), since the source derives them from the live display size.
- The `option_buttons` list in the card handler is not modelled, since nothing reads it.
- App.FlashcardApp.HandleCardsScreen: its contract says nothing about the per-option buttons or their colours. These buttons are local to one frame and are only drawn. The colour policy is stated on `OptionColor` instead.
- Keys other than Return and Backspace are modelled by the text they type (`KeyDown(Char(u))`, `u` being `event.unicode`, which may be empty or hold several characters); the code appends whatever it holds, and so does the model.
- extract_notes.py is not part of this model. It is file-system, OCR and PDF library work with a one-line extension dispatch.
