/**
 * The lenient tag decoder of `color_str` in the runtime crate: a single
 * left-to-right scan in which `F`/`B` followed by a colour letter selects a
 * foreground/background colour and consumes both characters, `b`, `i`, `u`
 * select bold, italic and underline, `N` asks for a leading newline, and
 * every other character is skipped. A selector not followed by a colour
 * letter selects nothing and leaves the next character to be scanned.
 */
module Lenient {
  import opened Outcomes
  import opened Tags

  /** The attribute selected by selector `s` followed by `c`, if `s` is `F`/`B` and `c` a colour letter. */
  function Pair(s: char, c: char): (r: Option<Attr>)
    ensures r.Some? <==> (s == 'F' || s == 'B') && c in ColorLetters
  {
    match ColorOf(c)
    case None => None
    case Some(col) =>
      if s == 'F' then Some(Fore(col))
      else if s == 'B' then Some(Back(col))
      else None
  }

  /** The characters that start a directive. */
  const Directives: set<char> := {'F', 'B', 'b', 'i', 'u', 'N'}

  /** The effect of a character scanned on its own. */
  function Single(c: char): Style
  {
    if c == 'b' then Style([Bold], false)
    else if c == 'i' then Style([Italic], false)
    else if c == 'u' then Style([Underline], false)
    else if c == 'N' then Style([], true)
    else Plain
  }

  /**
   * One scan step at the front of a non-empty tag: the style it contributes
   * and how many characters it consumes (two for a colour pair, else one).
   */
  function Step(tag: string): (r: (Style, nat))
    requires tag != []
    ensures 1 <= r.1 <= |tag|
    ensures |r.0.attrs| <= r.1
    ensures r.0.newline <==> 'N' in tag[..r.1]
  {
    if |tag| >= 2 && Pair(tag[0], tag[1]).Some? then (Style([Pair(tag[0], tag[1]).value], false), 2)
    else (Single(tag[0]), 1)
  }

  /**
   * Decodes a tag. At most one attribute per character is produced, and the
   * newline is requested exactly when `N` occurs anywhere in the tag (no
   * colour letter is `N`, so an `N` is never consumed by a selector).
   */
  function Decode(tag: string): (s: Style)
    ensures |s.attrs| <= |tag|
    ensures s.newline <==> 'N' in tag
    decreases |tag|
  {
    if tag == [] then Plain
    else
      var (head, n) := Step(tag);
      assert tag == tag[..n] + tag[n..];
      head.Then(Decode(tag[n..]))
  }

  /**
   * A selector followed by a colour letter consumes both characters and
   * appends one code: 3x for `F`, 4x for `B`, where x is the colour's place
   * in the table k r g y b m c w.
   */
  lemma PairConsumesTwo(s: char, c: char, t: string)
    requires s == 'F' || s == 'B'
    requires c in ColorLetters
    ensures Decode([s, c] + t) == Style([Pair(s, c).value], false).Then(Decode(t))
    ensures Code(Pair(s, c).value) == [if s == 'F' then '3' else '4', Digit(ColorOf(c).value)]
  {
    assert ([s, c] + t)[2..] == t;
  }

  /**
   * The whole colour table: the i-th letter of k r g y b m c w after `F`
   * gives the code 3i, after `B` the code 4i.
   */
  lemma PairTable(i: nat)
    requires i < 8
    ensures Decode(['F', "krgybmcw"[i]]).Codes() == [['3', "01234567"[i]]]
    ensures Decode(['B', "krgybmcw"[i]]).Codes() == [['4', "01234567"[i]]]
  {
  }

  /** Every decoded code is one of the 19 table strings, and there are no more codes than tag characters. */
  lemma CodesBounded(tag: string)
    ensures |Decode(tag).Codes()| <= |tag|
    ensures forall i :: 0 <= i < |Decode(tag).Codes()| ==> Decode(tag).Codes()[i] in CodeTable
  {
  }

  /**
   * The scan as the source writes it: a cursor over the tag, a peek after a
   * selector, and an accumulator of attributes in encounter order.
   */
  method DecodeLoop(tag: string) returns (attrs: seq<Attr>, newline: bool)
    ensures Style(attrs, newline) == Decode(tag)
  {
    attrs, newline := [], false;
    var i := 0;
    PlainNeutral(Decode(tag));
    while i < |tag|
      invariant 0 <= i <= |tag|
      invariant Style(attrs, newline).Then(Decode(tag[i..])) == Decode(tag)
      decreases |tag| - i
    {
      ghost var before := Style(attrs, newline);
      ghost var rest := tag[i..];
      ghost var step := Step(rest);
      assert rest[0] == tag[i];
      assert i + 1 < |tag| ==> rest[1] == tag[i + 1];
      var m := tag[i];
      i := i + 1;
      if m == 'F' || m == 'B' {
        if i < |tag| {
          var col := ColorOf(tag[i]);
          if col.Some? {
            i := i + 1;
            attrs := attrs + [if m == 'F' then Fore(col.value) else Back(col.value)];
          }
        }
      } else if m == 'b' {
        attrs := attrs + [Bold];
      } else if m == 'i' {
        attrs := attrs + [Italic];
      } else if m == 'u' {
        attrs := attrs + [Underline];
      } else if m == 'N' {
        newline := true;
      }
      assert Style(attrs, newline) == before.Then(step.0);
      assert rest[step.1..] == tag[i..];
      ThenAssoc(before, step.0, Decode(tag[i..]));
    }
  }

  /** A step at the front of a clean-ended tag is not affected by what follows the tag. */
  lemma StepConcat(g: string, t: string)
    requires g != [] && EndsClean(g)
    ensures Step(g + t) == Step(g)
  {
    assert (g + t)[0] == g[0];
    if |g| >= 2 {
      assert (g + t)[1] == g[1];
    }
  }

  /**
   * A tag that does not end in a selector decodes independently of what is
   * appended to it: the decoding of `g + t` is that of `g` followed by that of `t`.
   */
  lemma {:induction false} DecodeConcat(g: string, t: string)
    requires EndsClean(g)
    ensures Decode(g + t) == Decode(g).Then(Decode(t))
    decreases |g|
  {
    if g == [] {
      assert g + t == t;
      PlainNeutral(Decode(t));
    } else {
      StepConcat(g, t);
      var (head, n) := Step(g);
      assert (g + t)[n..] == g[n..] + t;
      DecodeConcat(g[n..], t);
      ThenAssoc(head, Decode(g[n..]), Decode(t));
    }
  }

  /** A lone non-directive or dangling character decodes to nothing. */
  lemma DecodeInert(c: char, t: string)
    requires c !in Directives || t == [] || t[0] !in ColorLetters
    requires c != 'b' && c != 'i' && c != 'u' && c != 'N'
    ensures Decode([c] + t) == Decode(t)
  {
    assert ([c] + t)[1..] == t;
    PlainNeutral(Decode(t));
  }

  /** The characters spelling one directive decode to exactly that directive. */
  lemma DecodeToken(tok: Token)
    ensures Decode(TokenText(tok)) == TokenStyle(tok)
  {
    var text := TokenText(tok);
    assert text[Step(text).1..] == [];
    PlainNeutral(TokenStyle(tok));
  }

  /** Decoding a spelled tag gives back the directives it was spelled from; a dangling selector adds nothing. */
  lemma {:induction false} DecodeSpelled(toks: seq<Token>, tr: Trailer)
    ensures Decode(SpellWith(toks, tr)) == StyleOf(toks)
    decreases |toks|
  {
    if toks == [] {
      assert SpellWith(toks, tr) == TrailerText(tr);
      if tr != NoTrailer {
        DecodeInert(TrailerText(tr)[0], []);
        assert TrailerText(tr) == [TrailerText(tr)[0]] + [];
      }
    } else {
      var head := TokenText(toks[0]);
      assert SpellWith(toks, tr) == head + SpellWith(toks[1..], tr);
      DecodeConcat(head, SpellWith(toks[1..], tr));
      DecodeSpelled(toks[1..], tr);
      DecodeToken(toks[0]);
    }
  }

  /**
   * A character that is no directive is skipped and changes nothing, when
   * the prefix ends clean or neither that character nor the next one could
   * complete a selector the prefix ends in.
   */
  lemma DecodeSkipsUnknown(g: string, c: char, t: string)
    requires c !in Directives
    requires EndsClean(g) || (c !in ColorLetters && (t == [] || t[0] !in ColorLetters))
    ensures Decode(g + [c] + t) == Decode(g + t)
  {
    assert g + [c] + t == g + ([c] + t);
    DecodeInert(c, t);
    if EndsClean(g) {
      DecodeConcat(g, [c] + t);
      DecodeConcat(g, t);
    } else {
      DecodeSwapTail(g, [c] + t, t);
    }
  }

  /** After a prefix ending in a selector, skipping a character can let the selector reach a colour letter. */
  lemma SkipNeedsCleanEnd()
    ensures Decode("F" + "x" + "r") != Decode("F" + "r")
  {
    SelectorThenUnknown();
    PairConsumesTwo('F', 'r', []);
    assert "F" + "r" == ['F', 'r'] + [];
  }

  /** `Fxr`: the selector meets `x`, and `x` and `r` select nothing on their own. */
  lemma SelectorThenUnknown()
    ensures Decode("F" + "x" + "r") == Plain
  {
    DecodeInert('F', "xr");
    DecodeInert('x', "r");
    DecodeInert('r', []);
    assert "F" + "x" + "r" == ['F'] + "xr" && "xr" == ['x'] + "r" && "r" == ['r'] + [];
  }

  /** Decoding a non-empty tag is its first step followed by the decoding of what that step leaves. */
  lemma DecodeUnfold(tag: string)
    requires tag != []
    ensures Decode(tag) == Step(tag).0.Then(Decode(tag[Step(tag).1..]))
  {
  }

  /** A step at the front of any tag is not affected by what follows, unless that starts with a colour letter. */
  lemma StepBeforeNonColour(g: string, u: string)
    requires g != []
    requires u == [] || u[0] !in ColorLetters
    ensures Step(g + u) == Step(g)
  {
    assert (g + u)[0] == g[0];
    if |g| >= 2 {
      assert (g + u)[1] == g[1];
    } else if u != [] {
      assert (g + u)[1] == u[0];
    }
  }

  /**
   * Whatever the prefix, even one ending in a selector, two continuations
   * that decode alike and start with no colour letter keep decoding alike.
   */
  lemma {:induction false} DecodeSwapTail(g: string, u: string, v: string)
    requires Decode(u) == Decode(v)
    requires u == [] || u[0] !in ColorLetters
    requires v == [] || v[0] !in ColorLetters
    ensures Decode(g + u) == Decode(g + v)
    decreases |g|
  {
    if g == [] {
      assert g + u == u && g + v == v;
    } else {
      var n := Step(g).1;
      DecodeSwapTail(g[n..], u, v);
      SwapStep(g, u, v);
    }
  }

  /** Dropping characters that all lie in the prefix of a concatenation. */
  lemma DropFromPrefix(g: string, u: string, n: nat)
    requires n <= |g|
    ensures (g + u)[n..] == g[n..] + u
  {
  }

  /** One scan step of the swap: if what follows the first step decodes alike, so does the whole. */
  lemma SwapStep(g: string, u: string, v: string)
    requires g != []
    requires u == [] || u[0] !in ColorLetters
    requires v == [] || v[0] !in ColorLetters
    requires Decode(g[Step(g).1..] + u) == Decode(g[Step(g).1..] + v)
    ensures Decode(g + u) == Decode(g + v)
  {
    StepBeforeNonColour(g, u);
    StepBeforeNonColour(g, v);
    var n := Step(g).1;
    assert Step(g + u) == Step(g) == Step(g + v);
    DropFromPrefix(g, u, n);
    DropFromPrefix(g, v, n);
    DecodeUnfold(g + u);
    DecodeUnfold(g + v);
  }

  /** After any prefix, a selector before a non-colour character selects nothing and does not swallow that character. */
  lemma SelectorKeepsNext(g: string, s: char, c: char, t: string)
    requires s == 'F' || s == 'B'
    requires c !in ColorLetters
    ensures Decode(g + [s, c] + t) == Decode(g + [c] + t)
  {
    assert g + [s, c] + t == g + ([s] + ([c] + t));
    assert g + [c] + t == g + ([c] + t);
    DecodeInert(s, [c] + t);
    DecodeSwapTail(g, [s] + ([c] + t), [c] + t);
  }

  /** After any prefix, a selector at the very end of a tag selects nothing. */
  lemma DanglingSelectorIgnored(g: string, s: char)
    requires s == 'F' || s == 'B'
    ensures Decode(g + [s]) == Decode(g)
  {
    DecodeInert(s, []);
    assert [s] + [] == [s];
    DecodeSwapTail(g, [s], []);
    assert g + [] == g;
  }

  /** Without the clean-end condition decoding is not compositional: `F` then `r` pair up across the seam. */
  lemma SeamPairsSelector()
    ensures Decode("F" + "r") != Decode("F").Then(Decode("r"))
  {
    assert Decode("F" + "r").attrs == [Fore(Red)];
  }
}
