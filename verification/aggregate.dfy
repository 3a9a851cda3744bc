/**
 * The aggregators: `colorize!` in the runtime crate and the procedural
 * `colorize` macro. Both turn a list of entries, each a bare value or a
 * value with a tag, into their fragments joined by single spaces, in input
 * order. They differ in how a bare value is shown and in error handling:
 * the runtime form shows a bare value by its display text and never fails,
 * while the procedural form shows it by its quote-stripped debug text and
 * gives no output at all as soon as one tag is rejected.
 */
module Aggregate {
  import opened Outcomes
  import opened Text
  import opened Tags
  import opened Lenient
  import opened Strict
  import opened Fragments

  /** What a value looks like as text: its display form (`to_string`) and its debug form (`{:?}`). */
  datatype Value = Value(display: string, debug: string)

  /** One argument of the aggregator: a bare value or a tagged one. */
  datatype Entry = Bare(value: Value) | Tagged(tag: string, value: Value)

  /** The runtime form of one entry: bare values unstyled, tagged ones through `color_str`. */
  function PlainFragment(e: Entry): string
  {
    match e
    case Bare(v) => v.display
    case Tagged(tag, v) => ColorStr(v.debug, tag)
  }

  /** The runtime fragments of all entries, in order. */
  function PlainFragments(es: seq<Entry>): seq<string>
  {
    seq(|es|, i requires 0 <= i < |es| => PlainFragment(es[i]))
  }

  /** The fragments of a list are its first entry's fragment followed by the rest's. */
  lemma PlainFragmentsCons(es: seq<Entry>)
    requires es != []
    ensures PlainFragments(es) == [PlainFragment(es[0])] + PlainFragments(es[1..])
  {
    var later := PlainFragments(es[1..]);
    forall i | 0 <= i < |later|
      ensures PlainFragments(es)[i + 1] == later[i]
    {
      assert es[1..][i] == es[i + 1];
    }
    ConsOfParts(PlainFragments(es), PlainFragment(es[0]), later);
  }

  /**
   * `colorize!`: the fragments joined by single spaces. No entries give the
   * empty string, and N entries add exactly N - 1 characters of separator.
   */
  function Render(es: seq<Entry>): (r: string)
    ensures es == [] ==> r == []
    ensures es != [] ==> |r| == TotalLength(PlainFragments(es)) + |es| - 1
  {
    if es == [] then []
    else
      JoinLength(PlainFragments(es), " ");
      Join(PlainFragments(es), " ")
  }

  /** Rendering a list made of two parts renders each part and puts one space between them. */
  lemma RenderAppend(a: seq<Entry>, b: seq<Entry>)
    requires a != [] && b != []
    ensures Render(a + b) == Render(a) + " " + Render(b)
  {
    var fa, fb := PlainFragments(a), PlainFragments(b);
    assert PlainFragments(a + b) == fa + fb by {
      forall i | 0 <= i < |a + b|
        ensures PlainFragments(a + b)[i] == (fa + fb)[i]
      {
        if i < |a| {
          assert (a + b)[i] == a[i];
        } else {
          assert (a + b)[i] == b[i - |a|];
        }
      }
    }
    JoinAppend(fa, fb, " ");
  }

  /** Rendering one more entry appends a space and that entry's fragment. */
  lemma RenderSnoc(es: seq<Entry>, e: Entry)
    requires es != []
    ensures Render(es + [e]) == Render(es) + " " + PlainFragment(e)
  {
    RenderAppend(es, [e]);
  }

  /** Untagged values are emitted as their display text, with no escape sequence added. */
  lemma {:induction false} RenderBareIsPlain(es: seq<Entry>)
    requires forall i :: 0 <= i < |es| ==> es[i].Bare? && Esc !in es[i].value.display
    ensures Esc !in Render(es)
  {
    var parts := PlainFragments(es);
    JoinAvoids(parts, " ", Esc);
  }

  /** A tagged entry is shown in exactly its decoded style, with its quote-free debug text. */
  lemma RenderTaggedShape(tag: string, v: Value)
    ensures Render([Tagged(tag, v)]) == Fragment(Decode(tag), StripQuotes(v.debug))
    ensures ParseFragment(Render([Tagged(tag, v)])) == Some((Decode(tag), StripQuotes(v.debug)))
    ensures '"' !in StripQuotes(v.debug)
  {
    assert PlainFragments([Tagged(tag, v)]) == [ColorStr(v.debug, tag)];
    ColorStrReadsBack(v.debug, tag);
  }

  /** True when the procedural macro accepts the entry: bare, or tagged with a tag strict decoding accepts. */
  predicate Accepted(e: Entry)
  {
    e.Bare? || DecodeStrict(e.tag).Ok?
  }

  /** The procedural form of one entry: bare values as quote-stripped debug text. */
  function StrictFragment(e: Entry): (r: Result<string, TagError>)
    ensures r.Ok? <==> Accepted(e)
  {
    match e
    case Bare(v) => Ok(StripQuotes(v.debug))
    case Tagged(tag, v) => StrictColorStr(v.debug, tag)
  }

  /**
   * The loop of the procedural macro: the fragments of all entries, or the
   * error of the first entry that is not accepted.
   */
  function CollectStrict(es: seq<Entry>): (r: Result<seq<string>, TagError>)
    ensures r.Ok? <==> forall i :: 0 <= i < |es| ==> Accepted(es[i])
    ensures r.Ok? ==> |r.value| == |es| && forall i :: 0 <= i < |es| ==> Ok(r.value[i]) == StrictFragment(es[i])
    ensures r.Err? ==> exists i :: 0 <= i < |es| && StrictFragment(es[i]) == Err(r.error) &&
                                   forall j :: 0 <= j < i ==> Accepted(es[j])
    decreases |es|
  {
    if es == [] then Ok([])
    else
      match StrictFragment(es[0])
      case Err(e) => Err(e)
      case Ok(f) =>
        var rest := CollectStrict(es[1..]);
        assert forall i :: 1 <= i < |es| ==> es[i] == es[1..][i - 1];
        match rest
        case Err(e) =>
          FirstFailureShifts(es, e);
          Err(e)
        case Ok(fs) =>
          Ok([f] + fs)
  }

  /** A first failure in the tail, behind an accepted head, is a first failure of the whole list. */
  lemma FirstFailureShifts(es: seq<Entry>, e: TagError)
    requires es != [] && Accepted(es[0])
    requires exists i :: 0 <= i < |es[1..]| && StrictFragment(es[1..][i]) == Err(e) &&
                         forall j :: 0 <= j < i ==> Accepted(es[1..][j])
    ensures exists i :: 0 <= i < |es| && StrictFragment(es[i]) == Err(e) &&
                        forall j :: 0 <= j < i ==> Accepted(es[j])
  {
    var i :| 0 <= i < |es[1..]| && StrictFragment(es[1..][i]) == Err(e) &&
             forall j :: 0 <= j < i ==> Accepted(es[1..][j]);
    assert StrictFragment(es[i + 1]) == Err(e);
    forall j | 0 <= j < i + 1
      ensures Accepted(es[j])
    {
      if j > 0 {
        assert es[j] == es[1..][j - 1];
      }
    }
  }

  /**
   * Why the procedural `colorize` produces no string: a rejected tag, or a
   * call with no arguments, whose generated `[].join(" ")` gives the element
   * type of the empty array nothing to be inferred from and so does not compile.
   */
  datatype Failure = Rejected(error: TagError) | EmptyCall

  /** The procedural `colorize`: all fragments joined by single spaces, or the first error and nothing else. */
  function RenderStrict(es: seq<Entry>): Result<string, Failure>
  {
    if es == [] then Err(EmptyCall)
    else
      match CollectStrict(es)
      case Err(e) => Err(Rejected(e))
      case Ok(fs) => Ok(Join(fs, " "))
  }

  /**
   * The procedural form succeeds exactly when it is given entries and every
   * tag is accepted; it then agrees with the runtime form whenever each bare
   * value's display text is its quote-stripped debug text (as for string literals).
   */
  lemma RenderStrictAgrees(es: seq<Entry>)
    ensures RenderStrict(es).Ok? <==> es != [] && forall i :: 0 <= i < |es| ==> Accepted(es[i])
    ensures RenderStrict(es).Ok? && (forall i :: 0 <= i < |es| && es[i].Bare? ==> es[i].value.display == StripQuotes(es[i].value.debug))
            ==> RenderStrict(es).value == Render(es)
    ensures es == [] ==> RenderStrict(es) == Err(EmptyCall)
  {
    var r := CollectStrict(es);
    if es != [] && r.Ok? && (forall i :: 0 <= i < |es| && es[i].Bare? ==> es[i].value.display == StripQuotes(es[i].value.debug)) {
      assert r.value == PlainFragments(es) by {
        forall i | 0 <= i < |es|
          ensures r.value[i] == PlainFragments(es)[i]
        {
          assert Ok(r.value[i]) == StrictFragment(es[i]);
        }
      }
    }
  }

  /** One rejected tag anywhere means no output at all, only the error. */
  lemma RenderStrictAborts(es: seq<Entry>, i: nat)
    requires i < |es| && !Accepted(es[i])
    ensures RenderStrict(es).Err? && RenderStrict(es).error.Rejected?
    ensures exists k :: 0 <= k <= i && StrictFragment(es[k]) == Err(RenderStrict(es).error.error)
  {
  }
}
