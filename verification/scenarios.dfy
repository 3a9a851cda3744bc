/**
 * Worked examples stated on the model: concrete tags, their decodings, and
 * complete rendered strings. `TwoTagged` and `TaggedAndBare` restate the
 * crate's documentation examples and `NewlineEntry` its asserting unit test;
 * the other examples are chosen to exhibit one rule of the scan each.
 */
module Scenarios {
  import opened Outcomes
  import opened Text
  import opened Tags
  import opened Lenient
  import opened Strict
  import opened Fragments
  import opened Aggregate
  import opened Grouped

  /** The lower-case hexadecimal digits of a number below 256, without leading zeros. */
  function Hex(n: nat): string
    requires n < 256
  {
    if n < 16 then ["0123456789abcdef"[n]] else ["0123456789abcdef"[n / 16], "0123456789abcdef"[n % 16]]
  }

  /**
   * How `{:?}` shows one character inside a string: the six named escapes,
   * `\u{..}` for the other ASCII control characters, anything else as itself.
   */
  function DebugChar(c: char): string
  {
    if c == '\0' then "\\0"
    else if c == '\t' then "\\t"
    else if c == '\r' then "\\r"
    else if c == '\n' then "\\n"
    else if c == '\\' then "\\\\"
    else if c == '"' then "\\\""
    else if c < ' ' || c == '\U{7F}' then "\\u{" + Hex(c as int) + "}"
    else [c]
  }

  /** The characters of a string as `{:?}` shows them, between the quotes. */
  function DebugText(s: string): string
    decreases |s|
  {
    if s == [] then [] else DebugChar(s[0]) + DebugText(s[1..])
  }

  /** A string literal: displayed as itself, debug-formatted with escapes inside double quotes. */
  function Literal(s: string): Value
  {
    Value(s, "\"" + DebugText(s) + "\"")
  }

  /** True when every character is printable ASCII that `{:?}` does not escape. */
  predicate ShownAsItself(s: string)
  {
    forall i :: 0 <= i < |s| ==> ' ' <= s[i] <= '~' && s[i] != '"' && s[i] != '\\'
  }

  /** A string of characters `{:?}` does not escape is debug-shown unchanged. */
  lemma {:induction false} DebugTextPlain(s: string)
    requires ShownAsItself(s)
    ensures DebugText(s) == s
    decreases |s|
  {
    if s != [] {
      assert ShownAsItself(s[1..]) by {
        forall i | 0 <= i < |s[1..]|
          ensures ' ' <= s[1..][i] <= '~' && s[1..][i] != '"' && s[1..][i] != '\\'
        {
          assert s[1..][i] == s[i + 1];
        }
      }
      DebugTextPlain(s[1..]);
      assert s == [s[0]] + s[1..];
    }
  }

  /** Colour pairs consume both characters and map the letter through the table. */
  lemma ColourPairs()
    ensures Decode("Fr") == Style([Fore(Red)], false)
    ensures Decode("Bg") == Style([Back(Green)], false)
    ensures Decode("Fk").Codes() == ["30"] && Decode("Fw").Codes() == ["37"]
    ensures Decode("Bk").Codes() == ["40"] && Decode("Bw").Codes() == ["47"]
  {
  }

  /** Attributes come out in scan order; `b` right after a selector is the colour blue. */
  lemma ScanOrder()
    ensures Decode("iFb").Codes() == ["3", "34"]
  {
  }

  /** Two colour pairs in a row: background first, then a blue foreground. */
  lemma BackThenBlue()
    ensures Decode("BrFb").Codes() == ["41", "34"]
  {
  }

  /** `b` that does not follow a selector is bold. */
  lemma BoldAfterPair()
    ensures Decode("Fgb").Codes() == ["32", "1"]
  {
  }

  /** Nothing is merged: every directive adds its own code. */
  lemma NoMerging()
    ensures Decode("biFr").Codes() == ["1", "3", "31"]
  {
  }

  /** A second foreground does not replace the first; both codes are written. */
  lemma NoOverride()
    ensures Decode("FrFg").Codes() == ["31", "32"]
  {
  }

  /** `N` adds no attribute and requests the newline wherever it stands. */
  lemma NewlineAnywhere()
    ensures Decode("Nb") == Style([Bold], true)
    ensures Decode("bN") == Style([Bold], true)
    ensures Decode("") == Style([], false)
  {
  }

  /** A selector before a non-colour character does not swallow it; unknown characters are skipped. */
  lemma LenientSkips()
    ensures Decode("Fi") == Style([Italic], false)
    ensures Decode("F") == Plain
    ensures Decode("xb") == Style([Bold], false)
  {
  }

  /** The strict decoder rejects a selector followed by a non-colour character, naming that character. */
  lemma StrictVerdicts()
    ensures DecodeStrict("Fi") == Err(InvalidForeground('i'))
    ensures DecodeStrict("bBz") == Err(InvalidBackground('z'))
  {
  }

  /** An unknown character is rejected by name; a final selector is not. */
  lemma StrictVerdictsAtEnd()
    ensures DecodeStrict("bx") == Err(InvalidFormat('x'))
    ensures DecodeStrict("bF") == Ok(Style([Bold], false))
  {
    assert DecodeStrict("F") == Ok(Plain);
    assert [Bold] + [] == [Bold];
  }

  /** A string literal without quotes reads back as itself once its debug quotes are removed. */
  lemma LiteralText(s: string)
    requires ShownAsItself(s)
    ensures StripQuotes(Literal(s).debug) == s
  {
    DebugTextPlain(s);
    assert forall i :: 0 <= i < |s| ==> s[i] != '"';
    StripQuotesAppend("\"" + s, "\"");
    StripQuotesAppend("\"", s);
    StripQuotesQuoteFree(s);
  }

  /** The debug text of a concatenation is the concatenation of the debug texts. */
  lemma {:induction false} DebugTextAppend(a: string, b: string)
    ensures DebugText(a + b) == DebugText(a) + DebugText(b)
    decreases |a|
  {
    if a == [] {
      assert a + b == b;
    } else {
      assert (a + b)[0] == a[0] && (a + b)[1..] == a[1..] + b;
      DebugTextAppend(a[1..], b);
      var e := DebugChar(a[0]);
      assert e + DebugText(a[1..]) + DebugText(b) == e + (DebugText(a[1..]) + DebugText(b));
    }
  }

  /** The debug text of one character is that character's escape. */
  lemma DebugTextOne(c: char)
    ensures DebugText([c]) == DebugChar(c)
  {
    assert [c][1..] == [];
  }

  /** Removing quotes from a quoted text removes the enclosing pair and the text's own quotes. */
  lemma QuotedStrip(t: string)
    ensures StripQuotes("\"" + t + "\"") == StripQuotes(t)
  {
    StripQuotesAppend("\"" + t, "\"");
    StripQuotesAppend("\"", t);
    assert StripQuotes("\"") == [] by {
      assert "\""[1..] == [];
    }
  }

  /** The debug text of `a\b`: the backslash is escaped. */
  lemma BackslashDebug()
    ensures DebugText("a\\b") == "a\\\\b"
  {
    assert "a\\b" == "a" + ("\\" + "b");
    DebugTextAppend("a", "\\" + "b");
    DebugTextAppend("\\", "b");
    DebugTextOne('a');
    DebugTextOne('\\');
    DebugTextOne('b');
  }

  /** Quote removal works on the debug text, so a backslash is shown doubled. */
  lemma BackslashShownDoubled()
    ensures StripQuotes(Literal("a\\b").debug) == "a\\\\b"
  {
    BackslashDebug();
    QuotedStrip("a\\\\b");
    StripQuotesQuoteFree("a\\\\b");
  }

  /** The debug text of `x"`: the quote is escaped. */
  lemma QuoteDebug()
    ensures DebugText("x\"") == "x\\\""
  {
    assert "x\"" == "x" + "\"";
    DebugTextAppend("x", "\"");
    DebugTextOne('x');
    DebugTextOne('"');
  }

  /** An embedded double quote loses the quote but keeps the backslash that escaped it. */
  lemma QuoteLeavesBackslash()
    ensures StripQuotes(Literal("x\"").debug) == "x\\"
  {
    QuoteDebug();
    QuotedStrip("x\\\"");
    assert "x\\\"" == "x\\" + "\"";
    StripQuotesAppend("x\\", "\"");
    StripQuotesQuoteFree("x\\");
    assert StripQuotes("\"") == [] by {
      assert "\""[1..] == [];
    }
  }

  /** A tagged string literal renders the literal's own text, styled by the tag. */
  lemma TaggedLiteral(tag: string, s: string)
    requires ShownAsItself(s)
    ensures PlainFragment(Tagged(tag, Literal(s))) == Fragment(Decode(tag), s)
  {
    LiteralText(s);
  }

  /** A fragment spelled out, given the joined parameter list of its style. */
  lemma FragmentSpelled(style: Style, s: string, params: string, text: string)
    requires Join(style.Codes(), ";") == params
    requires text == (if style.newline then "\n" else "") + (Introducer + (params + "m" + s + Reset))
    ensures Fragment(style, s) == text
  {
  }

  /** The parameter list of a style with no attributes is empty. */
  lemma ParamsNone(nl: bool)
    ensures Join(Style([], nl).Codes(), ";") == []
  {
    assert Style([], nl).Codes() == [];
  }

  /** The parameter list of a style with one attribute is that attribute's code. */
  lemma ParamsOne(a: Attr, nl: bool)
    ensures Join(Style([a], nl).Codes(), ";") == Code(a)
  {
    assert Style([a], nl).Codes() == [Code(a)];
  }

  /** The parameter list of a style with two attributes: both codes, separated by `;`. */
  lemma ParamsTwo(a: Attr, b: Attr, nl: bool)
    ensures Join(Style([a, b], nl).Codes(), ";") == Code(a) + ";" + Code(b)
  {
    var codes := Style([a, b], nl).Codes();
    assert codes == [Code(a), Code(b)];
    assert codes[1..] == [Code(b)];
  }

  /** A single entry renders as its own fragment. */
  lemma RenderOne(e: Entry)
    ensures Render([e]) == PlainFragment(e)
  {
  }

  /** Rendering appends one more fragment after a space, spelled out for short lists. */
  lemma RenderTwo(e1: Entry, e2: Entry)
    ensures Render([e1, e2]) == PlainFragment(e1) + " " + PlainFragment(e2)
  {
    RenderOne(e1);
    RenderSnoc([e1], e2);
    assert [e1] + [e2] == [e1, e2];
  }

  /** Three entries: three fragments, two spaces. */
  lemma RenderThree(e1: Entry, e2: Entry, e3: Entry)
    ensures Render([e1, e2, e3]) == PlainFragment(e1) + " " + PlainFragment(e2) + " " + PlainFragment(e3)
  {
    RenderTwo(e1, e2);
    RenderSnoc([e1, e2], e3);
    assert [e1, e2] + [e3] == [e1, e2, e3];
  }

  /** Five entries: five fragments, four spaces. */
  lemma RenderFive(e1: Entry, e2: Entry, e3: Entry, e4: Entry, e5: Entry)
    ensures Render([e1, e2, e3, e4, e5])
         == PlainFragment(e1) + " " + PlainFragment(e2) + " " + PlainFragment(e3) + " "
            + PlainFragment(e4) + " " + PlainFragment(e5)
  {
    RenderThree(e1, e2, e3);
    RenderSnoc([e1, e2, e3], e4);
    assert [e1, e2, e3] + [e4] == [e1, e2, e3, e4];
    RenderSnoc([e1, e2, e3, e4], e5);
    assert [e1, e2, e3, e4] + [e5] == [e1, e2, e3, e4, e5];
  }

  /** A group tag on the first of three entries styles all three. */
  lemma GroupOverThree(g: string, one: Entry, two: Entry, three: Entry)
    ensures MacroColorize([Under(g, one), Item(two), Item(three)])
         == Some(GroupFragment(g, one) + " " + GroupFragment(g, two) + " " + GroupFragment(g, three))
  {
    GroupArgs(g, one, two, three);
    GroupedThree(g, one, two, three);
    var f1, f2, f3 := GroupFragment(g, one), GroupFragment(g, two), GroupFragment(g, three);
    assert [f1] + ([f2] + ([f3] + [])) == [f1, f2, f3];
    JoinThree(f1, f2, f3, " ");
  }

  /** The three arguments of the grouped scenario, seen as a group over a list of entries. */
  lemma GroupArgs(g: string, one: Entry, two: Entry, three: Entry)
    ensures MacroColorize([Under(g, one), Item(two), Item(three)])
         == Some(Join(FragmentsUnder(Some(g), [one] + ([two] + ([three] + []))), " "))
  {
    MacroCarriesGroup([], g, one, [two, three]);
    GroupArgsShape(g, one, two, three);
    assert [one] + [two, three] == [one] + ([two] + ([three] + []));
    var all := FragmentsUnder(Some(g), [one] + ([two] + ([three] + [])));
    assert FragmentsUnder(None, []) + all == all;
  }

  /** The three arguments of the grouped scenario, as items around one group tag. */
  lemma GroupArgsShape(g: string, one: Entry, two: Entry, three: Entry)
    ensures Items([]) + [Under(g, one)] + Items([two, three]) == [Under(g, one), Item(two), Item(three)]
  {
    assert Items([two, three]) == [Item(two), Item(three)];
  }

  /** The fragments of three entries under a group tag, one after another. */
  lemma GroupedThree(g: string, one: Entry, two: Entry, three: Entry)
    ensures FragmentsUnder(Some(g), [one] + ([two] + ([three] + [])))
         == [GroupFragment(g, one)] + ([GroupFragment(g, two)] + ([GroupFragment(g, three)] + []))
  {
    FragmentsUnderFront(Some(g), three, []);
    FragmentsUnderFront(Some(g), two, [three] + []);
    FragmentsUnderFront(Some(g), one, [two] + ([three] + []));
  }

  /** The fragment text of `"Hello"` in the style that `BrFg` decodes to. */
  lemma HelloBrFgText()
    ensures Fragment(Style([Back(Red), Fore(Green)], false), "Hello") == "\U{1B}[41;32mHello\U{1B}[0m"
  {
    ParamsTwo(Back(Red), Fore(Green), false);
    FragmentSpelled(Style([Back(Red), Fore(Green)], false), "Hello", "41;32", "\U{1B}[41;32mHello\U{1B}[0m");
  }

  /** `BrFg->"Hello"` renders as that fragment text. */
  lemma HelloBrFg()
    ensures PlainFragment(Tagged("BrFg", Literal("Hello"))) == "\U{1B}[41;32mHello\U{1B}[0m"
  {
    HelloBrFgText();
    assert Decode("BrFg") == Style([Back(Red), Fore(Green)], false);
    TaggedLiteral("BrFg", "Hello");
  }

  /** The fragment text of `"world"` in the style that `b` decodes to. */
  lemma WorldBText()
    ensures Fragment(Style([Bold], false), "world") == "\U{1B}[1mworld\U{1B}[0m"
  {
    ParamsOne(Bold, false);
    FragmentSpelled(Style([Bold], false), "world", "1", "\U{1B}[1mworld\U{1B}[0m");
  }

  /** `b->"world"` renders as that fragment text. */
  lemma WorldB()
    ensures PlainFragment(Tagged("b", Literal("world"))) == "\U{1B}[1mworld\U{1B}[0m"
  {
    WorldBText();
    assert Decode("b") == Style([Bold], false);
    TaggedLiteral("b", "world");
  }

  /** `colorize!(BrFg->"Hello", b->"world")`. */
  lemma TwoTagged()
    ensures Render([Tagged("BrFg", Literal("Hello")), Tagged("b", Literal("world"))])
         == "\U{1B}[41;32mHello\U{1B}[0m" + " " + "\U{1B}[1mworld\U{1B}[0m"
  {
    HelloBrFg();
    WorldB();
    RenderTwo(Tagged("BrFg", Literal("Hello")), Tagged("b", Literal("world")));
  }

  /** The fragment text of `"Hello"` in the style that `iFb` decodes to. */
  lemma HelloIFbText()
    ensures Fragment(Style([Italic, Fore(Blue)], false), "Hello") == "\U{1B}[3;34mHello\U{1B}[0m"
  {
    ParamsTwo(Italic, Fore(Blue), false);
    FragmentSpelled(Style([Italic, Fore(Blue)], false), "Hello", "3;34", "\U{1B}[3;34mHello\U{1B}[0m");
  }

  /** `iFb->"Hello"` renders as that fragment text. */
  lemma HelloIFb()
    ensures PlainFragment(Tagged("iFb", Literal("Hello"))) == "\U{1B}[3;34mHello\U{1B}[0m"
  {
    HelloIFbText();
    assert Decode("iFb") == Style([Italic, Fore(Blue)], false);
    TaggedLiteral("iFb", "Hello");
  }

  /** The fragment text of `"world"` in the style that `Fmu` decodes to. */
  lemma WorldFmuText()
    ensures Fragment(Style([Fore(Magenta), Underline], false), "world") == "\U{1B}[35;4mworld\U{1B}[0m"
  {
    ParamsTwo(Fore(Magenta), Underline, false);
    FragmentSpelled(Style([Fore(Magenta), Underline], false), "world", "35;4", "\U{1B}[35;4mworld\U{1B}[0m");
  }

  /** `Fmu->"world"` renders as that fragment text. */
  lemma WorldFmu()
    ensures PlainFragment(Tagged("Fmu", Literal("world"))) == "\U{1B}[35;4mworld\U{1B}[0m"
  {
    WorldFmuText();
    assert Decode("Fmu") == Style([Fore(Magenta), Underline], false);
    TaggedLiteral("Fmu", "world");
  }

  /** `colorize!(iFb->"Hello", Fmu->"world", ", it's me!")`: the bare value is left unstyled. */
  lemma TaggedAndBare()
    ensures Render([Tagged("iFb", Literal("Hello")), Tagged("Fmu", Literal("world")), Bare(Literal(", it's me!"))])
         == "\U{1B}[3;34mHello\U{1B}[0m" + " " + "\U{1B}[35;4mworld\U{1B}[0m" + " " + ", it's me!"
  {
    HelloIFb();
    WorldFmu();
    RenderThree(Tagged("iFb", Literal("Hello")), Tagged("Fmu", Literal("world")), Bare(Literal(", it's me!")));
  }

  /** The fragment text of `"hello again"` in the style that `Fgb` decodes to. */
  lemma HelloAgainFgbText()
    ensures Fragment(Style([Fore(Green), Bold], false), "hello again") == "\U{1B}[32;1mhello again\U{1B}[0m"
  {
    ParamsTwo(Fore(Green), Bold, false);
    FragmentSpelled(Style([Fore(Green), Bold], false), "hello again", "32;1", "\U{1B}[32;1mhello again\U{1B}[0m");
  }

  /** `Fgb->"hello again"` renders as that fragment text. */
  lemma HelloAgainFgb()
    ensures PlainFragment(Tagged("Fgb", Literal("hello again"))) == "\U{1B}[32;1mhello again\U{1B}[0m"
  {
    HelloAgainFgbText();
    assert Decode("Fgb") == Style([Fore(Green), Bold], false);
    TaggedLiteral("Fgb", "hello again");
  }

  /** The fragment text of `"hello"` in the style that `N` decodes to. */
  lemma HelloNText()
    ensures Fragment(Style([], true), "hello") == "\n\U{1B}[mhello\U{1B}[0m"
  {
    ParamsNone(true);
    FragmentSpelled(Style([], true), "hello", "", "\n\U{1B}[mhello\U{1B}[0m");
  }

  /** `N->"hello"` renders as that fragment text. */
  lemma HelloN()
    ensures PlainFragment(Tagged("N", Literal("hello"))) == "\n\U{1B}[mhello\U{1B}[0m"
  {
    HelloNText();
    assert Decode("N") == Style([], true);
    TaggedLiteral("N", "hello");
  }

  /** The fragment text of `"goodbye"` in the style that `BrFb` decodes to. */
  lemma GoodbyeBrFbText()
    ensures Fragment(Style([Back(Red), Fore(Blue)], false), "goodbye") == "\U{1B}[41;34mgoodbye\U{1B}[0m"
  {
    ParamsTwo(Back(Red), Fore(Blue), false);
    FragmentSpelled(Style([Back(Red), Fore(Blue)], false), "goodbye", "41;34", "\U{1B}[41;34mgoodbye\U{1B}[0m");
  }

  /** `BrFb->"goodbye"` renders as that fragment text. */
  lemma GoodbyeBrFb()
    ensures PlainFragment(Tagged("BrFb", Literal("goodbye"))) == "\U{1B}[41;34mgoodbye\U{1B}[0m"
  {
    GoodbyeBrFbText();
    assert Decode("BrFb") == Style([Back(Red), Fore(Blue)], false);
    TaggedLiteral("BrFb", "goodbye");
  }

  /** The fragment text of `"again"` in the style that `b` decodes to. */
  lemma AgainBText()
    ensures Fragment(Style([Bold], false), "again") == "\U{1B}[1magain\U{1B}[0m"
  {
    ParamsOne(Bold, false);
    FragmentSpelled(Style([Bold], false), "again", "1", "\U{1B}[1magain\U{1B}[0m");
  }

  /** `b->"again"` renders as that fragment text. */
  lemma AgainB()
    ensures PlainFragment(Tagged("b", Literal("again"))) == "\U{1B}[1magain\U{1B}[0m"
  {
    AgainBText();
    assert Decode("b") == Style([Bold], false);
    TaggedLiteral("b", "again");
  }

  /** The crate's own test: a newline-only tag still writes an empty SGR list. */
  lemma NewlineEntry()
    ensures Render([Tagged("Fgb", Literal("hello again")), Tagged("N", Literal("hello")), Bare(Literal("and")),
                    Tagged("BrFb", Literal("goodbye")), Tagged("b", Literal("again"))])
         == "\U{1B}[32;1mhello again\U{1B}[0m" + " " + "\n\U{1B}[mhello\U{1B}[0m" + " " + "and" + " "
            + "\U{1B}[41;34mgoodbye\U{1B}[0m" + " " + "\U{1B}[1magain\U{1B}[0m"
  {
    HelloAgainFgb();
    HelloN();
    GoodbyeBrFb();
    AgainB();
    RenderFive(Tagged("Fgb", Literal("hello again")), Tagged("N", Literal("hello")), Bare(Literal("and")),
               Tagged("BrFb", Literal("goodbye")), Tagged("b", Literal("again")));
  }

  /** The fragment text of `"One"` in the style that `bFg` decodes to. */
  lemma OneBFgText()
    ensures Fragment(Style([Bold, Fore(Green)], false), "One") == "\U{1B}[1;32mOne\U{1B}[0m"
  {
    ParamsTwo(Bold, Fore(Green), false);
    FragmentSpelled(Style([Bold, Fore(Green)], false), "One", "1;32", "\U{1B}[1;32mOne\U{1B}[0m");
  }

  /** Under group `b`, `Fg->"One"` renders as that fragment text. */
  lemma OneBFg()
    ensures GroupFragment("b", Tagged("Fg", Literal("One"))) == "\U{1B}[1;32mOne\U{1B}[0m"
  {
    OneBFgText();
    assert Decode("bFg") == Style([Bold, Fore(Green)], false);
    assert "b" + "Fg" == "bFg";
    TaggedLiteral("bFg", "One");
  }

  /** The fragment text of `"two"` in the style that `b` decodes to. */
  lemma TwoUnderBText()
    ensures Fragment(Style([Bold], false), "two") == "\U{1B}[1mtwo\U{1B}[0m"
  {
    ParamsOne(Bold, false);
    FragmentSpelled(Style([Bold], false), "two", "1", "\U{1B}[1mtwo\U{1B}[0m");
  }

  /** Under group `b`, the bare `"two"` renders as that fragment text. */
  lemma TwoUnderB()
    ensures GroupFragment("b", Bare(Literal("two"))) == "\U{1B}[1mtwo\U{1B}[0m"
  {
    TwoUnderBText();
    assert Decode("b") == Style([Bold], false);
    TaggedLiteral("b", "two");
  }

  /** The fragment text of `"three"` in the style that `bFb` decodes to. */
  lemma ThreeBFbText()
    ensures Fragment(Style([Bold, Fore(Blue)], false), "three") == "\U{1B}[1;34mthree\U{1B}[0m"
  {
    ParamsTwo(Bold, Fore(Blue), false);
    FragmentSpelled(Style([Bold, Fore(Blue)], false), "three", "1;34", "\U{1B}[1;34mthree\U{1B}[0m");
  }

  /** Under group `b`, `Fb->"three"` renders as that fragment text. */
  lemma ThreeBFb()
    ensures GroupFragment("b", Tagged("Fb", Literal("three"))) == "\U{1B}[1;34mthree\U{1B}[0m"
  {
    ThreeBFbText();
    assert Decode("bFb") == Style([Bold, Fore(Blue)], false);
    assert "b" + "Fb" == "bFb";
    TaggedLiteral("bFb", "three");
  }

  /** A group tag `b` over `Fg -> "One"`, `"two"`, `Fb -> "three"`: the bare value is bold too. */
  lemma GroupedBold()
    ensures MacroColorize([Under("b", Tagged("Fg", Literal("One"))), Item(Bare(Literal("two"))),
                           Item(Tagged("Fb", Literal("three")))])
         == Some("\U{1B}[1;32mOne\U{1B}[0m" + " " + "\U{1B}[1mtwo\U{1B}[0m" + " " + "\U{1B}[1;34mthree\U{1B}[0m")
  {
    OneBFg();
    TwoUnderB();
    ThreeBFb();
    GroupOverThree("b", Tagged("Fg", Literal("One")), Bare(Literal("two")), Tagged("Fb", Literal("three")));
  }

  /** The procedural macro gives nothing but the error when one tag is bad. */
  lemma StrictAbort()
    ensures RenderStrict([Tagged("b", Literal("ok")), Tagged("Fq", Literal("bad")), Tagged("Bx", Literal("worse"))])
         == Err(Rejected(InvalidForeground('q')))
  {
    var es := [Tagged("b", Literal("ok")), Tagged("Fq", Literal("bad")), Tagged("Bx", Literal("worse"))];
    assert DecodeStrict("b").Ok?;
    assert DecodeStrict("Fq") == Err(InvalidForeground('q'));
    assert es[1..][1..] == [Tagged("Bx", Literal("worse"))];
    assert CollectStrict(es[1..]) == Err(InvalidForeground('q'));
  }
}
