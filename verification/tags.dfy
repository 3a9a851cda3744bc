/**
 * The tag vocabulary: the eight colour letters, the style attributes a tag
 * can select, their SGR parameter strings (section 8.3.117 of ECMA-48:
 * 30-37 foreground, 40-47 background, 1 bold, 3 italic, 4 underline), and
 * the decoded style of a tag. It also spells attribute lists back as tags,
 * which the decoders are proved to invert.
 */
module Tags {
  import opened Outcomes

  datatype Color = Black | Red | Green | Yellow | Blue | Magenta | Cyan | White

  /** The letters accepted after an `F` or `B` selector. */
  const ColorLetters: set<char> := {'k', 'r', 'g', 'y', 'b', 'm', 'c', 'w'}

  /** The letter that names a colour after `F` or `B`. */
  function Letter(col: Color): char
  {
    match col
    case Black => 'k'
    case Red => 'r'
    case Green => 'g'
    case Yellow => 'y'
    case Blue => 'b'
    case Magenta => 'm'
    case Cyan => 'c'
    case White => 'w'
  }

  /** The colour a letter selects, if it is one of the eight colour letters. */
  function ColorOf(c: char): (r: Option<Color>)
    ensures r.Some? <==> c in ColorLetters
    ensures r.Some? ==> Letter(r.value) == c
  {
    match c
    case 'k' => Some(Black)
    case 'r' => Some(Red)
    case 'g' => Some(Green)
    case 'y' => Some(Yellow)
    case 'b' => Some(Blue)
    case 'm' => Some(Magenta)
    case 'c' => Some(Cyan)
    case 'w' => Some(White)
    case _ => None
  }

  /** Reading a colour's letter back gives the colour. */
  lemma LetterRoundTrip(col: Color)
    ensures ColorOf(Letter(col)) == Some(col)
  {
  }

  /** The last digit of a colour's SGR parameter, in table order black = 0 ... white = 7. */
  function Digit(col: Color): char
  {
    match col
    case Black => '0'
    case Red => '1'
    case Green => '2'
    case Yellow => '3'
    case Blue => '4'
    case Magenta => '5'
    case Cyan => '6'
    case White => '7'
  }

  /** The colour whose SGR digit is `d`, if any. */
  function ColorOfDigit(d: char): (r: Option<Color>)
    ensures r.Some? ==> Digit(r.value) == d
  {
    match d
    case '0' => Some(Black)
    case '1' => Some(Red)
    case '2' => Some(Green)
    case '3' => Some(Yellow)
    case '4' => Some(Blue)
    case '5' => Some(Magenta)
    case '6' => Some(Cyan)
    case '7' => Some(White)
    case _ => None
  }

  /** One display attribute a tag can select. */
  datatype Attr = Fore(color: Color) | Back(color: Color) | Bold | Italic | Underline

  /** The 19 SGR parameter strings a tag can produce. */
  const CodeTable: set<string> := {
    "30", "31", "32", "33", "34", "35", "36", "37",
    "40", "41", "42", "43", "44", "45", "46", "47",
    "1", "3", "4"
  }

  /** The SGR parameter string pushed for an attribute. */
  function Code(a: Attr): (r: string)
    ensures r in CodeTable
    ensures forall i :: 0 <= i < |r| ==> '0' <= r[i] <= '9'
  {
    match a
    case Fore(col) => ['3', Digit(col)]
    case Back(col) => ['4', Digit(col)]
    case Bold => "1"
    case Italic => "3"
    case Underline => "4"
  }

  /** The attribute an SGR parameter string stands for, if it is in the table. */
  function AttrOfCode(s: string): (r: Option<Attr>)
    ensures r.Some? ==> Code(r.value) == s
  {
    if s == "1" then Some(Bold)
    else if s == "3" then Some(Italic)
    else if s == "4" then Some(Underline)
    else if |s| == 2 && (s[0] == '3' || s[0] == '4') then
      match ColorOfDigit(s[1])
      case None => None
      case Some(col) => Some(if s[0] == '3' then Fore(col) else Back(col))
    else None
  }

  /** Every parameter string is read back as the attribute that produced it. */
  lemma AttrOfCodeRoundTrip(a: Attr)
    ensures AttrOfCode(Code(a)) == Some(a)
  {
  }

  /** Distinct attributes never share a parameter string. */
  lemma CodeInjective(a: Attr, b: Attr)
    ensures Code(a) == Code(b) ==> a == b
  {
    AttrOfCodeRoundTrip(a);
    AttrOfCodeRoundTrip(b);
  }

  /** A decoded tag: the attributes in scan order and whether a newline comes first. */
  datatype Style = Style(attrs: seq<Attr>, newline: bool) {

    /** This style's attributes followed by `next`'s; a newline from either is kept. */
    function Then(next: Style): Style
    {
      Style(attrs + next.attrs, newline || next.newline)
    }

    /** The SGR parameter strings of the attributes, in order. */
    function Codes(): seq<string>
    {
      seq(|attrs|, i requires 0 <= i < |attrs| => Code(attrs[i]))
    }
  }

  /** The style of the empty tag: no attributes, no newline. */
  const Plain: Style := Style([], false)

  /** Sequencing styles is associative. */
  lemma ThenAssoc(a: Style, b: Style, c: Style)
    ensures a.Then(b).Then(c) == a.Then(b.Then(c))
  {
    assert a.attrs + b.attrs + c.attrs == a.attrs + (b.attrs + c.attrs);
  }

  /** The codes of two styles in sequence are the first style's codes followed by the second's. */
  lemma CodesThen(a: Style, b: Style)
    ensures a.Then(b).Codes() == a.Codes() + b.Codes()
  {
  }

  /** The plain style is neutral on both sides. */
  lemma PlainNeutral(s: Style)
    ensures Plain.Then(s) == s
    ensures s.Then(Plain) == s
  {
    assert [] + s.attrs == s.attrs;
    assert s.attrs + [] == s.attrs;
  }

  /** One directive of a tag: an attribute, or the newline marker `N`. */
  datatype Token = Styled(attr: Attr) | NewLine

  /** The tag characters that write a directive. */
  function TokenText(t: Token): string
  {
    match t
    case Styled(Fore(col)) => ['F', Letter(col)]
    case Styled(Back(col)) => ['B', Letter(col)]
    case Styled(Bold) => "b"
    case Styled(Italic) => "i"
    case Styled(Underline) => "u"
    case NewLine => "N"
  }

  /** The style one directive contributes. */
  function TokenStyle(t: Token): Style
  {
    match t
    case Styled(a) => Style([a], false)
    case NewLine => Style([], true)
  }

  /** A tag written directive by directive. */
  function Spell(toks: seq<Token>): string
    decreases |toks|
  {
    if toks == [] then [] else TokenText(toks[0]) + Spell(toks[1..])
  }

  /** The style a list of directives denotes, independent of any decoder. */
  function StyleOf(toks: seq<Token>): Style
    decreases |toks|
  {
    if toks == [] then Plain else TokenStyle(toks[0]).Then(StyleOf(toks[1..]))
  }

  /** A selector left at the very end of a tag, with no colour letter after it. */
  datatype Trailer = NoTrailer | TrailingFore | TrailingBack

  function TrailerText(tr: Trailer): string
  {
    match tr
    case NoTrailer => ""
    case TrailingFore => "F"
    case TrailingBack => "B"
  }

  /** A spelled tag, possibly ending in a dangling selector. */
  function SpellWith(toks: seq<Token>, tr: Trailer): string
  {
    Spell(toks) + TrailerText(tr)
  }

  /** True when the tag does not end in `F` or `B`, so nothing after it can pair with its end. */
  predicate EndsClean(tag: string)
  {
    tag == [] || (tag[|tag| - 1] != 'F' && tag[|tag| - 1] != 'B')
  }

  /** A spelled tag never ends in a selector waiting for its colour. */
  lemma {:induction false} SpellEndsClean(toks: seq<Token>)
    ensures EndsClean(Spell(toks))
    decreases |toks|
  {
    if toks != [] {
      SpellEndsClean(toks[1..]);
      if Spell(toks[1..]) == [] {
        assert Spell(toks) == TokenText(toks[0]);
      } else {
        var s := Spell(toks);
        assert s[|s| - 1] == Spell(toks[1..])[|Spell(toks[1..])| - 1];
      }
    }
  }
}
