/** The two interactive widgets of the quiz: a clickable Button and a
    single-line TextInput, with pygame's rectangle hit test and its
    input events reduced to the fields the widgets read. */
module Widgets {

  /** A pointer position in screen pixels. */
  datatype Point = Point(x: int, y: int)

  /** pygame's `Rect(x, y, width, height)`. */
  datatype Rect = Rect(x: int, y: int, w: int, h: int)

  /** `Rect.collidepoint`: half-open in both axes, so the right and bottom
      edges are outside and a rectangle of non-positive size holds nothing. */
  predicate Contains(r: Rect, p: Point)
  {
    r.x <= p.x < r.x + r.w && r.y <= p.y < r.y + r.h
  }

  /** An RGB triple. */
  datatype Color = Color(r: int, g: int, b: int)

  const LightBlue := Color(173, 216, 230)
  const DarkBlue := Color(0, 0, 139)
  const Green := Color(50, 205, 50)
  const Red := Color(220, 20, 60)
  const Yellow := Color(255, 255, 0)

  /** A labelled rectangle that shows `hoverColor` while the pointer is over
      it and `color` otherwise. Only the shade on display changes. */
  class Button {
    const rect: Rect
    const text: string
    const color: Color
    const hoverColor: Color
    var currentColor: Color

    constructor (rect: Rect, text: string, color: Color, hoverColor: Color)
      ensures this.rect == rect && this.text == text
      ensures this.color == color && this.hoverColor == hoverColor
      ensures currentColor == color
    {
      this.rect := rect;
      this.text := text;
      this.color := color;
      this.hoverColor := hoverColor;
      currentColor := color;
    }

    /** The shade a hover test at `p` leaves on display. */
    function ShadeAt(p: Point): Color
    {
      if Contains(rect, p) then hoverColor else color
    }

    /** Hover test: reports whether `p` is inside and shows the matching shade. */
    method CheckHover(p: Point) returns (inside: bool)
      modifies this
      ensures inside <==> Contains(rect, p)
      ensures currentColor == (if inside then hoverColor else color)
    {
      if Contains(rect, p) {
        currentColor := hoverColor;
        inside := true;
      } else {
        currentColor := color;
        inside := false;
      }
    }

    /** A click needs the pointer inside AND the frame's click flag. The
        hover test runs first, so the shade is updated whatever the flag. */
    method IsClicked(p: Point, clicked: bool) returns (hit: bool)
      modifies this
      ensures hit <==> Contains(rect, p) && clicked
      ensures !Contains(rect, p) ==> !hit
      ensures currentColor == ShadeAt(p)
    {
      var inside := CheckHover(p);
      hit := inside && clicked;
    }
  }

  /** The keys a text box distinguishes; every other key press carries the
      text it types (`event.unicode`, possibly empty). */
  datatype Key = Return | Backspace | Char(unicode: string)

  /** The pygame events the model reads. `button` is the mouse button number
      (1 is the left button). */
  datatype Event =
    | Quit
    | MouseDown(pos: Point, button: int)
    | KeyDown(key: Key)
    | Other

  /** Python's `s[:-1]`: everything but the last character, and "" for "". */
  function DropLast(s: string): (r: string)
    ensures |s| == 0 ==> r == []
    ensures |s| > 0 ==> r + [s[|s| - 1]] == s
  {
    if |s| == 0 then s else s[..|s| - 1]
  }

  /** The observable state of a text box. */
  datatype Buffer = Buffer(text: string, active: bool)

  /** The effect of one event on a text box whose rectangle is `rect`. */
  function Edit(b: Buffer, rect: Rect, e: Event): (r: Buffer)
    // a press anywhere focuses the box exactly when it lands inside
    ensures e.MouseDown? ==> r.text == b.text && (r.active <==> Contains(rect, e.pos))
    // an unfocused box ignores the keyboard
    ensures e.KeyDown? && !b.active ==> r == b
    // Enter unfocuses and keeps the text
    ensures e.KeyDown? && b.active && e.key.Return? ==> !r.active && r.text == b.text
    // Backspace drops one character, if there is one
    ensures e.KeyDown? && b.active && e.key.Backspace? ==>
              r.active && |r.text| == (if |b.text| == 0 then 0 else |b.text| - 1) && r.text <= b.text
    // other keys extend the text: the old text is a prefix of the new one
    ensures e.KeyDown? && b.active && e.key.Char? ==>
              r.active && b.text <= r.text && r.text[|b.text|..] == e.key.unicode
    // no other event touches the box
    ensures e.Quit? || e.Other? ==> r == b
  {
    match e
    case MouseDown(pos, _) => b.(active := Contains(rect, pos))
    case KeyDown(key) =>
      if !b.active then b
      else (
        match key
        case Return => b.(active := false)
        case Backspace => b.(text := DropLast(b.text))
        case Char(u) => b.(text := b.text + u)
      )
    case _ => b
  }

  /** Typing one character and then pressing Backspace restores the box. */
  lemma BackspaceUndoesChar(b: Buffer, rect: Rect, c: char)
    ensures Edit(Edit(b, rect, KeyDown(Char([c]))), rect, KeyDown(Backspace)) == b
  {
  }

  /** A single-line text box: a buffer and a focus flag. */
  class TextInput {
    const rect: Rect
    var text: string
    var active: bool

    constructor (rect: Rect)
      ensures this.rect == rect && text == "" && !active
    {
      this.rect := rect;
      text := "";
      active := false;
    }

    function Contents(): Buffer
      reads this
    {
      Buffer(text, active)
    }

    method HandleEvent(e: Event)
      modifies this
      ensures Contents() == Edit(old(Contents()), rect, e)
    {
      if e.MouseDown? {
        active := Contains(rect, e.pos);
      }
      if active && e.KeyDown? {
        if e.key.Return? {
          active := false;
        } else if e.key.Backspace? {
          text := DropLast(text);
        } else {
          text := text + e.key.unicode;
        }
      }
    }

    /** The buffer, verbatim. */
    method GetText() returns (t: string)
      ensures t == text
    {
      t := text;
    }
  }
}
