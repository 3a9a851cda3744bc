/**
 * Sequence helpers the renderer is built from: joining fragments with a
 * separator (Rust's `[..].join(sep)`), splitting them again, and the
 * removal of double quotes applied to every debug-formatted value.
 */
module Text {

  /** `parts` with `sep` between each pair of neighbours; no parts give the empty string. */
  function Join(parts: seq<string>, sep: string): string
    decreases |parts|
  {
    if |parts| == 0 then []
    else if |parts| == 1 then parts[0]
    else parts[0] + sep + Join(parts[1..], sep)
  }

  /** The summed length of all parts. */
  function TotalLength(parts: seq<string>): nat
    decreases |parts|
  {
    if |parts| == 0 then 0 else |parts[0]| + TotalLength(parts[1..])
  }

  /** Joining N parts inserts exactly N - 1 separators and nothing else. */
  lemma {:induction false} JoinLength(parts: seq<string>, sep: string)
    requires |parts| > 0
    ensures |Join(parts, sep)| == TotalLength(parts) + (|parts| - 1) * |sep|
    decreases |parts|
  {
    if |parts| > 1 {
      JoinLength(parts[1..], sep);
    }
  }

  /** Joining two non-empty lists is joining each and putting one separator between. */
  lemma {:induction false} JoinAppend(a: seq<string>, b: seq<string>, sep: string)
    requires |a| > 0 && |b| > 0
    ensures Join(a + b, sep) == Join(a, sep) + sep + Join(b, sep)
    decreases |a|
  {
    if |a| == 1 {
      assert (a + b)[1..] == b;
    } else {
      assert (a + b)[1..] == a[1..] + b;
      JoinAppend(a[1..], b, sep);
    }
  }

  /** Three parts joined: the middle one between two separators. */
  lemma JoinThree(a: string, b: string, c: string, sep: string)
    ensures Join([a, b, c], sep) == a + sep + b + sep + c
  {
    assert [a, b, c][1..] == [b, c];
    assert [b, c][1..] == [c];
    assert Join([b, c], sep) == b + sep + c;
    assert a + sep + (b + sep + c) == a + sep + b + sep + c;
  }

  /** A character absent from every part and from the separator is absent from the join. */
  lemma {:induction false} JoinAvoids(parts: seq<string>, sep: string, c: char)
    requires c !in sep
    requires forall i :: 0 <= i < |parts| ==> c !in parts[i]
    ensures c !in Join(parts, sep)
    decreases |parts|
  {
    if |parts| > 1 {
      JoinAvoids(parts[1..], sep, c);
    }
  }

  /** The position of the first occurrence of `c` in `s`. */
  function IndexOf(s: string, c: char): (k: nat)
    requires c in s
    ensures k < |s| && s[k] == c
    ensures forall j :: 0 <= j < k ==> s[j] != c
    decreases |s|
  {
    if s[0] == c then 0 else 1 + IndexOf(s[1..], c)
  }

  /** The first `c` in `p + [c] + q` is the one right after `p` when `p` holds none. */
  lemma IndexOfAfter(p: string, c: char, q: string)
    requires c !in p
    ensures IndexOf(p + [c] + q, c) == |p|
  {
    var s := p + [c] + q;
    assert s[|p|] == c;
    assert forall j :: 0 <= j < |p| ==> s[j] == p[j];
  }

  /** The `sep`-separated fields of `s`; there is always at least one, possibly empty. */
  function Fields(s: string, sep: char): (r: seq<string>)
    ensures |r| > 0
    decreases |s|
  {
    if sep !in s then [s]
    else
      var k := IndexOf(s, sep);
      [s[..k]] + Fields(s[k + 1..], sep)
  }

  /** Splitting a join at the separator gives back the parts, when no part holds the separator. */
  lemma {:induction false} FieldsOfJoin(parts: seq<string>, sep: char)
    requires |parts| > 0
    requires forall i :: 0 <= i < |parts| ==> sep !in parts[i]
    ensures Fields(Join(parts, [sep]), sep) == parts
    decreases |parts|
  {
    if |parts| > 1 {
      var rest := Join(parts[1..], [sep]);
      assert Join(parts, [sep]) == parts[0] + [sep] + rest;
      assert sep !in parts[0];
      FieldsStep(parts[0], sep, rest);
      assert forall i :: 0 <= i < |parts[1..]| ==> parts[1..][i] == parts[i + 1];
      FieldsOfJoin(parts[1..], sep);
      assert parts == [parts[0]] + parts[1..];
    }
  }

  /** The first field ends at the first separator. */
  lemma FieldsStep(p: string, sep: char, q: string)
    requires sep !in p
    ensures Fields(p + [sep] + q, sep) == [p] + Fields(q, sep)
  {
    var s := p + [sep] + q;
    assert s[|p|] == sep;
    IndexOfAfter(p, sep, q);
    assert s[..|p|] == p;
    assert s[|p| + 1..] == q;
  }

  /** A list whose first element is `head` and whose others are those of `later`, in order. */
  lemma ConsOfParts(all: seq<string>, head: string, later: seq<string>)
    requires |all| == |later| + 1 && all[0] == head
    requires forall i :: 0 <= i < |later| ==> all[i + 1] == later[i]
    ensures all == [head] + later
  {
    forall i | 0 <= i < |all|
      ensures all[i] == ([head] + later)[i]
    {
      if i > 0 {
        assert all[(i - 1) + 1] == later[i - 1];
      }
    }
  }

  /** `s` with every double-quote character removed (Rust's `.replace('"', "")`). */
  function StripQuotes(s: string): (r: string)
    ensures '"' !in r
    ensures |r| <= |s|
    decreases |s|
  {
    if s == [] then []
    else (if s[0] == '"' then [] else [s[0]]) + StripQuotes(s[1..])
  }

  /** Quote removal works piecewise: it distributes over concatenation. */
  lemma {:induction false} StripQuotesAppend(a: string, b: string)
    ensures StripQuotes(a + b) == StripQuotes(a) + StripQuotes(b)
    decreases |a|
  {
    if a != [] {
      assert (a + b)[1..] == a[1..] + b;
      StripQuotesAppend(a[1..], b);
    } else {
      assert a + b == b;
    }
  }

  /** A text with no double quote is left exactly as it is. */
  lemma {:induction false} StripQuotesQuoteFree(s: string)
    requires '"' !in s
    ensures StripQuotes(s) == s
    decreases |s|
  {
    if s != [] {
      StripQuotesQuoteFree(s[1..]);
    }
  }

  /** Removing quotes twice is removing them once. */
  lemma StripQuotesIdempotent(s: string)
    ensures StripQuotes(StripQuotes(s)) == StripQuotes(s)
  {
    StripQuotesQuoteFree(StripQuotes(s));
  }

  /** Every character other than the double quote keeps its number of occurrences. */
  lemma {:induction false} StripQuotesKeepsOthers(s: string, c: char)
    requires c != '"'
    ensures multiset(StripQuotes(s))[c] == multiset(s)[c]
    decreases |s|
  {
    if s != [] {
      StripQuotesKeepsOthers(s[1..], c);
      assert s == [s[0]] + s[1..];
    }
  }
}
