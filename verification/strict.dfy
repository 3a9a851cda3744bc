/**
 * The strict tag decoder of the procedural-macro crate's `color_str`. It
 * reads the same tables as the lenient decoder but rejects a selector
 * followed by a non-colour character and any character that starts no
 * directive. A selector at the very end of the tag is still accepted and
 * selects nothing.
 */
module Strict {
  import opened Outcomes
  import opened Tags
  import opened Lenient

  /** Why a tag was rejected, with the character at fault. */
  datatype TagError =
    | InvalidForeground(option: char)
    | InvalidBackground(option: char)
    | InvalidFormat(identifier: char)
  {
    /** The character the error reports. */
    function Culprit(): char
    {
      match this
      case InvalidForeground(c) => c
      case InvalidBackground(c) => c
      case InvalidFormat(c) => c
    }
  }

  /** `head` in front of a decoded rest; an error in the rest is passed on. */
  function Prepend(head: Style, rest: Result<Style, TagError>): Result<Style, TagError>
  {
    match rest
    case Ok(s) => Ok(head.Then(s))
    case Err(e) => Err(e)
  }

  /** Decodes a tag strictly, stopping at the first character it rejects. */
  function DecodeStrict(tag: string): Result<Style, TagError>
    decreases |tag|
  {
    if tag == [] then Ok(Plain)
    else if tag[0] == 'F' || tag[0] == 'B' then
      if |tag| == 1 then
        Ok(Plain)
      else
        match ColorOf(tag[1])
        case None =>
          Err(if tag[0] == 'F' then InvalidForeground(tag[1]) else InvalidBackground(tag[1]))
        case Some(col) =>
          Prepend(Style([if tag[0] == 'F' then Fore(col) else Back(col)], false), DecodeStrict(tag[2..]))
    else if tag[0] in Directives then
      Prepend(Single(tag[0]), DecodeStrict(tag[1..]))
    else
      Err(InvalidFormat(tag[0]))
  }

  /**
   * On success the strict decoding is exactly the lenient decoding of the
   * same tag; on failure the reported character occurs in the tag and is a
   * bad colour letter or a character that starts no directive.
   */
  lemma {:induction false} StrictAgrees(tag: string)
    ensures DecodeStrict(tag).Ok? ==> DecodeStrict(tag).value == Decode(tag)
    ensures DecodeStrict(tag).Err? ==> DecodeStrict(tag).error.Culprit() in tag
    ensures DecodeStrict(tag).Err? && DecodeStrict(tag).error.InvalidFormat? ==>
              DecodeStrict(tag).error.identifier !in Directives
    ensures DecodeStrict(tag).Err? && !DecodeStrict(tag).error.InvalidFormat? ==>
              DecodeStrict(tag).error.option !in ColorLetters
    decreases |tag|
  {
    if tag != [] && (tag[0] == 'F' || tag[0] == 'B') && |tag| > 1 && ColorOf(tag[1]).Some? {
      StrictAgrees(tag[2..]);
      assert tag == tag[..2] + tag[2..];
    } else if tag != [] && tag[0] in Directives && tag[0] != 'F' && tag[0] != 'B' {
      StrictAgrees(tag[1..]);
      assert tag == [tag[0]] + tag[1..];
    }
  }

  /** The strict result of `g + t` when the scan of `g` is done before `t` starts: the first error wins. */
  function AndThen(first: Result<Style, TagError>, second: Result<Style, TagError>): Result<Style, TagError>
  {
    match first
    case Err(e) => Err(e)
    case Ok(s) => Prepend(s, second)
  }

  /**
   * Strict decoding is compositional at a clean end: `g + t` fails with
   * `g`'s error if `g` fails, else with `t`'s, and otherwise decodes to the
   * two styles in sequence.
   */
  lemma {:induction false} StrictConcat(g: string, t: string)
    requires EndsClean(g)
    ensures DecodeStrict(g + t) == AndThen(DecodeStrict(g), DecodeStrict(t))
    decreases |g|
  {
    if g == [] {
      assert g + t == t;
      if DecodeStrict(t).Ok? {
        PlainNeutral(DecodeStrict(t).value);
      }
    } else {
      assert (g + t)[0] == g[0];
      if g[0] == 'F' || g[0] == 'B' {
        assert |g| >= 2;
        assert (g + t)[1] == g[1];
        if ColorOf(g[1]).Some? {
          assert (g + t)[2..] == g[2..] + t;
          StrictConcat(g[2..], t);
          StrictPrependAssoc(Style([if g[0] == 'F' then Fore(ColorOf(g[1]).value) else Back(ColorOf(g[1]).value)], false),
            DecodeStrict(g[2..]), DecodeStrict(t));
        }
      } else if g[0] in Directives {
        assert (g + t)[1..] == g[1..] + t;
        StrictConcat(g[1..], t);
        StrictPrependAssoc(Single(g[0]), DecodeStrict(g[1..]), DecodeStrict(t));
      }
    }
  }

  /** Prepending to a sequenced result is sequencing the prepended one. */
  lemma StrictPrependAssoc(head: Style, first: Result<Style, TagError>, second: Result<Style, TagError>)
    ensures Prepend(head, AndThen(first, second)) == AndThen(Prepend(head, first), second)
  {
    if first.Ok? && second.Ok? {
      ThenAssoc(head, first.value, second.value);
    }
  }

  /** The characters spelling one directive are accepted as exactly that directive. */
  lemma StrictToken(tok: Token)
    ensures DecodeStrict(TokenText(tok)) == Ok(TokenStyle(tok))
  {
    var text := TokenText(tok);
    if tok.Styled? && (tok.attr.Fore? || tok.attr.Back?) {
      assert text[2..] == [];
    } else {
      assert text[1..] == [];
    }
    PlainNeutral(TokenStyle(tok));
  }

  /** Every spelled tag, even one ending in a dangling selector, is accepted with the style it spells. */
  lemma {:induction false} StrictAcceptsSpelled(toks: seq<Token>, tr: Trailer)
    ensures DecodeStrict(SpellWith(toks, tr)) == Ok(StyleOf(toks))
    decreases |toks|
  {
    if toks == [] {
      assert SpellWith(toks, tr) == TrailerText(tr);
    } else {
      var head := TokenText(toks[0]);
      assert SpellWith(toks, tr) == head + SpellWith(toks[1..], tr);
      StrictConcat(head, SpellWith(toks[1..], tr));
      StrictAcceptsSpelled(toks[1..], tr);
      StrictToken(toks[0]);
    }
  }

  /** Conversely, every accepted tag is a spelled tag, possibly ending in a dangling selector. */
  lemma StrictOkIsSpelled(tag: string) returns (toks: seq<Token>, tr: Trailer)
    requires DecodeStrict(tag).Ok?
    ensures tag == SpellWith(toks, tr)
    ensures DecodeStrict(tag) == Ok(StyleOf(toks))
  {
    toks, tr := StrictOkSpelling(tag);
    StrictAcceptsSpelled(toks, tr);
  }

  /** The directives an accepted tag is spelled from, read off one at a time. */
  lemma {:induction false} StrictOkSpelling(tag: string) returns (toks: seq<Token>, tr: Trailer)
    requires DecodeStrict(tag).Ok?
    ensures tag == SpellWith(toks, tr)
    decreases |tag|
  {
    if tag == [] {
      toks, tr := [], NoTrailer;
    } else if |tag| == 1 && (tag[0] == 'F' || tag[0] == 'B') {
      toks, tr := [], if tag[0] == 'F' then TrailingFore else TrailingBack;
    } else {
      var head, n := StrictHead(tag);
      var more, last := StrictOkSpelling(tag[n..]);
      toks, tr := [head] + more, last;
      SpellWithCons(head, more, tr);
      assert tag == tag[..n] + tag[n..];
    }
  }

  /** An accepted tag that is not a lone selector starts with the spelling of one directive. */
  lemma StrictHead(tag: string) returns (head: Token, n: nat)
    requires DecodeStrict(tag).Ok?
    requires tag != [] && !(|tag| == 1 && (tag[0] == 'F' || tag[0] == 'B'))
    ensures 1 <= n <= |tag|
    ensures TokenText(head) == tag[..n]
    ensures DecodeStrict(tag[n..]).Ok?
  {
    if tag[0] == 'F' || tag[0] == 'B' {
      var col := ColorOf(tag[1]).value;
      head := Styled(if tag[0] == 'F' then Fore(col) else Back(col));
      n := 2;
    } else {
      head := if tag[0] == 'b' then Styled(Bold)
              else if tag[0] == 'i' then Styled(Italic)
              else if tag[0] == 'u' then Styled(Underline)
              else NewLine;
      n := 1;
    }
  }

  /** Spelling a list with one more directive in front puts that directive's characters in front. */
  lemma SpellWithCons(head: Token, more: seq<Token>, tr: Trailer)
    ensures SpellWith([head] + more, tr) == TokenText(head) + SpellWith(more, tr)
  {
    assert ([head] + more)[1..] == more;
    assert Spell([head] + more) == TokenText(head) + Spell(more);
    assert TokenText(head) + Spell(more) + TrailerText(tr) == TokenText(head) + (Spell(more) + TrailerText(tr));
  }

  /** A selector followed by a non-colour character is rejected, naming that character. */
  lemma StrictRejectsBadSelector(toks: seq<Token>, s: char, c: char, rest: string)
    requires s == 'F' || s == 'B'
    requires c !in ColorLetters
    ensures DecodeStrict(Spell(toks) + [s, c] + rest)
         == Err(if s == 'F' then InvalidForeground(c) else InvalidBackground(c))
  {
    SpellEndsClean(toks);
    StrictAcceptsSpelled(toks, NoTrailer);
    assert SpellWith(toks, NoTrailer) == Spell(toks);
    assert Spell(toks) + [s, c] + rest == Spell(toks) + ([s, c] + rest);
    StrictConcat(Spell(toks), [s, c] + rest);
  }

  /** A character that starts no directive is rejected, naming that character. */
  lemma StrictRejectsUnknown(toks: seq<Token>, c: char, rest: string)
    requires c !in Directives
    ensures DecodeStrict(Spell(toks) + [c] + rest) == Err(InvalidFormat(c))
  {
    SpellEndsClean(toks);
    StrictAcceptsSpelled(toks, NoTrailer);
    assert SpellWith(toks, NoTrailer) == Spell(toks);
    assert Spell(toks) + [c] + rest == Spell(toks) + ([c] + rest);
    StrictConcat(Spell(toks), [c] + rest);
  }

  /** The strict scan as the source writes it, returning at the first rejected character. */
  method DecodeStrictLoop(tag: string) returns (r: Result<Style, TagError>)
    ensures r == DecodeStrict(tag)
  {
    var attrs: seq<Attr> := [];
    var newline := false;
    var i := 0;
    assert Prepend(Plain, DecodeStrict(tag)) == DecodeStrict(tag) by {
      if DecodeStrict(tag).Ok? {
        PlainNeutral(DecodeStrict(tag).value);
      }
    }
    while i < |tag|
      invariant 0 <= i <= |tag|
      invariant Prepend(Style(attrs, newline), DecodeStrict(tag[i..])) == DecodeStrict(tag)
      decreases |tag| - i
    {
      ghost var before := Style(attrs, newline);
      ghost var rest := tag[i..];
      assert rest[0] == tag[i];
      assert i + 1 < |tag| ==> rest[1] == tag[i + 1];
      var m := tag[i];
      i := i + 1;
      if m == 'F' || m == 'B' {
        if i < |tag| {
          var col := ColorOf(tag[i]);
          if col.None? {
            return Err(if m == 'F' then InvalidForeground(tag[i]) else InvalidBackground(tag[i]));
          }
          ghost var head := Style([if m == 'F' then Fore(col.value) else Back(col.value)], false);
          i := i + 1;
          attrs := attrs + [if m == 'F' then Fore(col.value) else Back(col.value)];
          assert rest[2..] == tag[i..];
          StrictPrependAssoc(before, Ok(head), DecodeStrict(tag[i..]));
        } else {
          assert rest[1..] == tag[i..];
          StrictPrependAssoc(before, Ok(Plain), DecodeStrict(tag[i..]));
          PlainNeutral(before);
        }
      } else if m in Directives {
        ghost var head := Single(m);
        if m == 'b' {
          attrs := attrs + [Bold];
        } else if m == 'i' {
          attrs := attrs + [Italic];
        } else if m == 'u' {
          attrs := attrs + [Underline];
        } else {
          newline := true;
        }
        assert Style(attrs, newline) == before.Then(head);
        assert rest[1..] == tag[i..];
        StrictPrependAssoc(before, Ok(head), DecodeStrict(tag[i..]));
      } else {
        return Err(InvalidFormat(m));
      }
    }
    assert tag[i..] == [];
    PlainNeutral(Style(attrs, newline));
    r := Ok(Style(attrs, newline));
  }
}
