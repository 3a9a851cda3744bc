/**
 * `macro_colorize!`, the aggregator with a group tag. Entries before the
 * group are rendered as by `colorize!`. The first entry written `G => ...`
 * starts the group: from there on every entry, including that one, is
 * styled by the tag `G` written in front of the entry's own tag, and a bare
 * value is styled by `G` alone. The group stays active to the end; a second
 * group tag matches no rule of the macro.
 */
module Grouped {
  import opened Outcomes
  import opened Text
  import opened Tags
  import opened Lenient
  import opened Fragments
  import opened Aggregate

  /** One argument: an entry, or an entry introduced by a group tag (`G => T -> v` or `G => v`). */
  datatype Arg = Item(entry: Entry) | Under(group: string, entry: Entry)

  /** The tag an entry is decoded with under group tag `g`: the group's characters first, then its own. */
  function EffectiveTag(g: string, e: Entry): string
  {
    match e
    case Bare(_) => g
    case Tagged(t, _) => g + t
  }

  /** An entry under group tag `g`, styled with its effective tag. */
  function GroupFragment(g: string, e: Entry): string
  {
    ColorStr(e.value.debug, EffectiveTag(g, e))
  }

  /**
   * Under a group every entry is styled, bare values included: the fragment
   * reads back as the decoding of the effective tag and the quote-free debug text.
   */
  lemma GroupFragmentStyled(g: string, e: Entry)
    ensures ParseFragment(GroupFragment(g, e)) == Some((Decode(EffectiveTag(g, e)), StripQuotes(e.value.debug)))
    ensures e.Bare? ==> ParseFragment(GroupFragment(g, e)) == Some((Decode(g), StripQuotes(e.value.debug)))
    ensures e.Tagged? ==> ParseFragment(GroupFragment(g, e)) == Some((Decode(g + e.tag), StripQuotes(e.value.debug)))
  {
    ColorStrReadsBack(e.value.debug, EffectiveTag(g, e));
  }

  /** An entry rendered with the group tag in force, if any. */
  function FragmentUnder(active: Option<string>, e: Entry): string
  {
    match active
    case None => PlainFragment(e)
    case Some(g) => GroupFragment(g, e)
  }

  /** The fragments of entries rendered with the group tag in force, in order. */
  function FragmentsUnder(active: Option<string>, es: seq<Entry>): seq<string>
    decreases |es|
  {
    if es == [] then [] else [FragmentUnder(active, es[0])] + FragmentsUnder(active, es[1..])
  }

  /**
   * The macro's recursion: `acc` holds the fragments produced so far and
   * `active` the group tag once one has been given. A group tag while one is
   * already active matches no rule, which is None here.
   */
  function Expand(acc: seq<string>, active: Option<string>, args: seq<Arg>): Option<string>
    decreases |args|
  {
    if args == [] then Some(Join(acc, " "))
    else if active.Some? && args[0].Under? then None
    else
      var now := if args[0].Under? then Some(args[0].group) else active;
      Expand(acc + [FragmentUnder(now, args[0].entry)], now, args[1..])
  }

  /** `macro_colorize!` applied to a list of arguments. */
  function MacroColorize(args: seq<Arg>): Option<string>
  {
    Expand([], None, args)
  }

  /** Entries written without any group tag. */
  function Items(es: seq<Entry>): seq<Arg>
  {
    seq(|es|, i requires 0 <= i < |es| => Item(es[i]))
  }

  /** How many arguments carry a group tag. */
  function GroupCount(args: seq<Arg>): nat
    decreases |args|
  {
    if args == [] then 0 else (if args[0].Under? then 1 else 0) + GroupCount(args[1..])
  }

  /** Over items without a group tag, the recursion appends each entry's fragment and joins at the end. */
  lemma {:induction false} ExpandItems(acc: seq<string>, active: Option<string>, es: seq<Entry>)
    ensures Expand(acc, active, Items(es)) == Some(Join(acc + FragmentsUnder(active, es), " "))
    decreases |es|
  {
    if es == [] {
      assert acc + FragmentsUnder(active, es) == acc;
    } else {
      var head := FragmentUnder(active, es[0]);
      ExpandItemStep(acc, active, es);
      ExpandItems(acc + [head], active, es[1..]);
      FragmentsUnderCons(acc, active, es);
    }
  }

  /** One plain item is consumed by appending its fragment under the group in force. */
  lemma ExpandItemStep(acc: seq<string>, active: Option<string>, es: seq<Entry>)
    requires es != []
    ensures Expand(acc, active, Items(es)) == Expand(acc + [FragmentUnder(active, es[0])], active, Items(es[1..]))
  {
    assert Items(es)[1..] == Items(es[1..]);
  }

  /** The fragments of a list are its first entry's fragment followed by the rest's. */
  lemma FragmentsUnderCons(acc: seq<string>, active: Option<string>, es: seq<Entry>)
    requires es != []
    ensures acc + [FragmentUnder(active, es[0])] + FragmentsUnder(active, es[1..]) == acc + FragmentsUnder(active, es)
  {
    var head := FragmentUnder(active, es[0]);
    var later := FragmentsUnder(active, es[1..]);
    assert acc + [head] + later == acc + ([head] + later);
  }

  /** The fragments of a list with one more entry in front. */
  lemma FragmentsUnderFront(active: Option<string>, e: Entry, rest: seq<Entry>)
    ensures FragmentsUnder(active, [e] + rest) == [FragmentUnder(active, e)] + FragmentsUnder(active, rest)
  {
    assert ([e] + rest)[1..] == rest;
  }

  /** Without a group tag every entry gets its runtime fragment. */
  lemma {:induction false} FragmentsUnderPlain(es: seq<Entry>)
    ensures FragmentsUnder(None, es) == PlainFragments(es)
    decreases |es|
  {
    if es != [] {
      FragmentsUnderPlain(es[1..]);
      PlainFragmentsCons(es);
    }
  }

  /** With no group tag, `macro_colorize!` renders exactly as `colorize!`. */
  lemma MacroWithoutGroup(es: seq<Entry>)
    ensures MacroColorize(Items(es)) == Some(Render(es))
  {
    ExpandItems([], None, es);
    FragmentsUnderPlain(es);
    assert [] + FragmentsUnder(None, es) == FragmentsUnder(None, es);
  }

  /**
   * Once a group tag appears it is carried to every remaining entry: the
   * entries before it render plainly, it and all later ones under the group.
   */
  lemma MacroCarriesGroup(lead: seq<Entry>, g: string, first: Entry, rest: seq<Entry>)
    ensures MacroColorize(Items(lead) + [Under(g, first)] + Items(rest))
         == Some(Join(FragmentsUnder(None, lead) + FragmentsUnder(Some(g), [first] + rest), " "))
  {
    var more := [Under(g, first)] + Items(rest);
    assert Items(lead) + [Under(g, first)] + Items(rest) == Items(lead) + more;
    ExpandPrefix([], lead, more);
    var plain := FragmentsUnder(None, lead);
    assert [] + plain == plain;
    ExpandFromGroup(plain, g, first, rest);
  }

  /** From the group tag on, every entry is rendered under the group. */
  lemma ExpandFromGroup(acc: seq<string>, g: string, first: Entry, rest: seq<Entry>)
    ensures Expand(acc, None, [Under(g, first)] + Items(rest))
         == Some(Join(acc + FragmentsUnder(Some(g), [first] + rest), " "))
  {
    ExpandGroupStep(acc, g, first, rest);
    ExpandItems(acc + [FragmentUnder(Some(g), first)], Some(g), rest);
    FragmentsUnderCons(acc, Some(g), [first] + rest);
    assert ([first] + rest)[1..] == rest;
  }

  /** The group tag, met while none is active, becomes active and styles its own entry. */
  lemma ExpandGroupStep(acc: seq<string>, g: string, first: Entry, rest: seq<Entry>)
    ensures Expand(acc, None, [Under(g, first)] + Items(rest))
         == Expand(acc + [FragmentUnder(Some(g), first)], Some(g), Items(rest))
  {
    var more := [Under(g, first)] + Items(rest);
    assert more[0] == Under(g, first) && more[1..] == Items(rest);
  }

  /** Plain items in front of other arguments only add their plain fragments to the accumulator. */
  lemma {:induction false} ExpandPrefix(acc: seq<string>, lead: seq<Entry>, more: seq<Arg>)
    ensures Expand(acc, None, Items(lead) + more) == Expand(acc + FragmentsUnder(None, lead), None, more)
    decreases |lead|
  {
    if lead == [] {
      assert Items(lead) + more == more;
      assert acc + FragmentsUnder(None, lead) == acc;
    } else {
      assert (Items(lead) + more)[0] == Item(lead[0]);
      assert (Items(lead) + more)[1..] == Items(lead[1..]) + more;
      ExpandPrefix(acc + [FragmentUnder(None, lead[0])], lead[1..], more);
      FragmentsUnderCons(acc, None, lead);
    }
  }

  /** The recursion finishes exactly when, counting an active group, at most one group tag is given. */
  lemma {:induction false} ExpandDefined(acc: seq<string>, active: Option<string>, args: seq<Arg>)
    ensures Expand(acc, active, args).Some? <==> GroupCount(args) + (if active.Some? then 1 else 0) <= 1
    decreases |args|
  {
    if args != [] && !(active.Some? && args[0].Under?) {
      var now := if args[0].Under? then Some(args[0].group) else active;
      ExpandDefined(acc + [FragmentUnder(now, args[0].entry)], now, args[1..]);
    }
  }

  /** `macro_colorize!` accepts a call exactly when it carries at most one group tag. */
  lemma MacroAcceptsOneGroup(args: seq<Arg>)
    ensures MacroColorize(args).Some? <==> GroupCount(args) <= 1
  {
    ExpandDefined([], None, args);
  }

  /**
   * When the group tag does not end in a selector, the group's attributes
   * come first and the entry's own follow, as if each were decoded alone.
   */
  lemma GroupComposes(g: string, t: string, v: Value)
    requires EndsClean(g)
    ensures GroupFragment(g, Tagged(t, v)) == Fragment(Decode(g).Then(Decode(t)), StripQuotes(v.debug))
  {
    DecodeConcat(g, t);
  }
}
