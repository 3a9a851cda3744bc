/**
 * The text `color_str` produces for one styled value:
 * an optional newline, ESC "[", the SGR parameters joined by ";", "m",
 * the value's text, and the reset ESC "[0m". The value's text is its debug
 * form with every double quote removed. A parser for that shape shows the
 * format is unambiguous: the style and the text can be read back.
 */
module Fragments {
  import opened Outcomes
  import opened Text
  import opened Tags
  import opened Lenient
  import opened Strict

  /** The escape character that starts every control sequence. */
  const Esc: char := '\U{1B}'

  /** The control sequence that opens an SGR parameter list. */
  const Introducer: string := [Esc, '[']

  /** ESC "[0m": every styled fragment ends by resetting all attributes. */
  const Reset: string := [Esc, '[', '0', 'm']

  /** The fragment for `text` displayed in `style`. */
  function Fragment(style: Style, text: string): string
  {
    (if style.newline then "\n" else "") + (Introducer + (Join(style.Codes(), ";") + "m" + text + Reset))
  }

  /** The attributes named by a list of parameter strings, if every one is in the table. */
  function AttrsOfCodes(codes: seq<string>): Option<seq<Attr>>
    decreases |codes|
  {
    if codes == [] then Some([])
    else
      match (AttrOfCode(codes[0]), AttrsOfCodes(codes[1..]))
      case (Some(a), Some(rest)) => Some([a] + rest)
      case _ => None
  }

  /** The attributes of a ";"-separated parameter list; the empty list names none. */
  function ParseCodes(s: string): Option<seq<Attr>>
  {
    if s == [] then Some([]) else AttrsOfCodes(Fields(s, ';'))
  }

  /** Reads a fragment back into its style and text, or None if `s` is not shaped like one. */
  function ParseFragment(s: string): Option<(Style, string)>
  {
    if |s| > 0 && s[0] == '\n' then ParseBody(s[1..], true) else ParseBody(s, false)
  }

  /** Reads what follows the optional newline: the introducer, then parameters and text. */
  function ParseBody(body: string, newline: bool): Option<(Style, string)>
  {
    if |body| < 2 || body[..2] != Introducer || 'm' !in body[2..] then None
    else ParseParams(body[2..], newline)
  }

  /** Reads the parameter list up to the first "m", then the text up to the final reset. */
  function ParseParams(params: string, newline: bool): Option<(Style, string)>
    requires 'm' in params
  {
    var k := IndexOf(params, 'm');
    var tail := params[k + 1..];
    if |tail| < |Reset| || tail[|tail| - |Reset|..] != Reset then None
    else
      match ParseCodes(params[..k])
      case None => None
      case Some(attrs) => Some((Style(attrs, newline), tail[..|tail| - |Reset|]))
  }

  /** The parameter strings of any attribute list are read back as that list. */
  lemma {:induction false} AttrsOfCodesRoundTrip(attrs: seq<Attr>)
    ensures AttrsOfCodes(Style(attrs, false).Codes()) == Some(attrs)
    decreases |attrs|
  {
    var codes := Style(attrs, false).Codes();
    if attrs != [] {
      AttrOfCodeRoundTrip(attrs[0]);
      assert codes[1..] == Style(attrs[1..], false).Codes();
      AttrsOfCodesRoundTrip(attrs[1..]);
      assert attrs == [attrs[0]] + attrs[1..];
    }
  }

  /** The joined parameter list of a style parses back to the style's attributes. */
  lemma ParseCodesRoundTrip(style: Style)
    ensures ParseCodes(Join(style.Codes(), ";")) == Some(style.attrs)
  {
    var codes := style.Codes();
    assert Style(style.attrs, false).Codes() == codes;
    AttrsOfCodesRoundTrip(style.attrs);
    if codes != [] {
      assert forall i :: 0 <= i < |codes| ==> ';' !in codes[i] by {
        forall i | 0 <= i < |codes|
          ensures ';' !in codes[i]
        {
          assert codes[i] == Code(style.attrs[i]);
        }
      }
      FieldsOfJoin(codes, ';');
      assert |codes[0]| > 0;
      assert Join(codes, ";") != [] by {
        if |codes| > 1 {
          assert Join(codes, ";") == codes[0] + ";" + Join(codes[1..], ";");
        }
      }
    }
  }

  /** The joined parameter list never holds the `m` that ends it. */
  lemma JoinedCodesAvoidM(style: Style)
    ensures 'm' !in Join(style.Codes(), ";")
  {
    var codes := style.Codes();
    forall i | 0 <= i < |codes|
      ensures 'm' !in codes[i]
    {
      assert codes[i] == Code(style.attrs[i]);
    }
    JoinAvoids(codes, ";", 'm');
  }

  /** The parameters and text of a fragment are read back unchanged. */
  lemma ParseParamsRoundTrip(style: Style, text: string)
    requires 'm' in Join(style.Codes(), ";") + "m" + text + Reset
    ensures ParseParams(Join(style.Codes(), ";") + "m" + text + Reset, style.newline) == Some((style, text))
  {
    var joined := Join(style.Codes(), ";");
    JoinedCodesAvoidM(style);
    var params := joined + "m" + text + Reset;
    assert params == joined + ['m'] + (text + Reset);
    IndexOfAfter(joined, 'm', text + Reset);
    assert params[..|joined|] == joined;
    var tail := params[|joined| + 1..];
    assert tail == text + Reset;
    assert tail[|tail| - |Reset|..] == Reset;
    assert tail[..|tail| - |Reset|] == text;
    ParseCodesRoundTrip(style);
  }

  /** Parsing a fragment recovers exactly the style and the text it was made from. */
  lemma ParseFragmentRoundTrip(style: Style, text: string)
    ensures ParseFragment(Fragment(style, text)) == Some((style, text))
  {
    var joined := Join(style.Codes(), ";");
    var params := joined + "m" + text + Reset;
    var body := Introducer + params;
    assert body[0] == Esc;
    assert params[|joined|] == 'm';
    assert body[..2] == Introducer && body[2..] == params;
    ParseParamsRoundTrip(style, text);
    assert ParseBody(body, style.newline) == Some((style, text));
    var s := Fragment(style, text);
    if style.newline {
      assert s == "\n" + body;
      assert s[0] == '\n' && s[1..] == body;
    } else {
      assert s == body;
      assert s[0] != '\n';
    }
  }

  /** Two fragments are equal only when they show the same text in the same style. */
  lemma FragmentInjective(s1: Style, t1: string, s2: Style, t2: string)
    requires Fragment(s1, t1) == Fragment(s2, t2)
    ensures s1 == s2 && t1 == t2
  {
    ParseFragmentRoundTrip(s1, t1);
    ParseFragmentRoundTrip(s2, t2);
  }

  /** The lenient `color_str`: the debug text of a value, quotes removed, styled by the decoded tag. */
  function ColorStr(debug: string, tag: string): string
  {
    Fragment(Decode(tag), StripQuotes(debug))
  }

  /**
   * What `color_str` produces reads back as the decoded tag and the
   * quote-free debug text, and it starts with a newline exactly when the tag holds `N`.
   */
  lemma ColorStrReadsBack(debug: string, tag: string)
    ensures ParseFragment(ColorStr(debug, tag)) == Some((Decode(tag), StripQuotes(debug)))
    ensures '"' !in StripQuotes(debug)
    ensures ColorStr(debug, tag)[0] == '\n' <==> 'N' in tag
  {
    ParseFragmentRoundTrip(Decode(tag), StripQuotes(debug));
  }

  /**
   * The strict `color_str`: fails exactly when strict decoding of the tag
   * fails, with the same error; otherwise agrees with the lenient one.
   */
  function StrictColorStr(debug: string, tag: string): (r: Result<string, TagError>)
    ensures r.Ok? <==> DecodeStrict(tag).Ok?
    ensures r.Ok? ==> r.value == ColorStr(debug, tag)
    ensures r.Err? ==> r.error == DecodeStrict(tag).error
  {
    StrictAgrees(tag);
    match DecodeStrict(tag)
    case Err(e) => Err(e)
    case Ok(style) => Ok(Fragment(style, StripQuotes(debug)))
  }
}
