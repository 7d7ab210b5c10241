/** `searchEvents`: keeps, in order, the events whose lower-cased text contains
  * every whitespace-separated term of the query. */
module EventSearch {
  import opened JsString
  import opened Sequences
  import opened Events

  // The template literal the filter callback builds: each field on its own
  // line, indented by eight spaces, with a space after the first four.
  const Indent: string := "\n        "
  const FieldBreak: string := " \n        "
  const Closing: string := "\n      "

  /** The fields one after the other with `sep` between consecutive ones. */
  function Joined(fields: seq<string>, sep: string): string
    decreases |fields|
  {
    if |fields| == 0 then []
    else if |fields| == 1 then fields[0]
    else fields[0] + sep + Joined(fields[1..], sep)
  }

  /** The template literal of an event, before lower-casing: it holds every
    * field. */
  function EventText(e: Event): (r: string)
    ensures forall k :: 0 <= k < |Fields(e)| ==> Contains(r, Fields(e)[k])
  {
    var fields := Fields(e);
    var joined := Joined(fields, FieldBreak);
    assert forall k :: 0 <= k < |fields| ==> Contains(Indent + joined + Closing, fields[k]) by {
      forall k | 0 <= k < |fields| ensures Contains(Indent + joined + Closing, fields[k]) {
        FieldInJoined(fields, FieldBreak, k);
        ContainsInfix(Indent, joined, Closing, fields[k]);
      }
    }
    Indent + joined + Closing
  }

  /** `eventString`: the lower-cased template literal. It holds every
    * lower-cased field and no ASCII capital. */
  function Haystack(e: Event): (r: string)
    ensures forall k :: 0 <= k < |Fields(e)| ==> Contains(r, ToLower(Fields(e)[k]))
    ensures forall k :: 0 <= k < |r| ==> !('A' <= r[k] <= 'Z')
  {
    var text := EventText(e);
    assert forall k :: 0 <= k < |Fields(e)| ==> Contains(ToLower(text), ToLower(Fields(e)[k])) by {
      forall k | 0 <= k < |Fields(e)| ensures Contains(ToLower(text), ToLower(Fields(e)[k])) {
        ContainsToLower(text, Fields(e)[k]);
      }
    }
    ToLower(text)
  }

  /** `searchTerm.toLowerCase().split(/\s+/)`: at least one term; every term is
    * blank-free and occurs in the lower-cased query; a blank query gives
    * empty terms only. */
  function SearchTerms(searchTerm: string): (r: seq<string>)
    ensures |r| >= 1
    ensures forall t :: t in r ==> NoSpace(t) && Contains(ToLower(searchTerm), t)
    ensures AllSpace(searchTerm) ==> forall t :: t in r ==> t == []
  {
    var lowered := ToLower(searchTerm);
    assert AllSpace(searchTerm) ==> forall t :: t in Split(lowered) ==> t == [] by {
      if AllSpace(searchTerm) {
        ToLowerKeepsSpaces(searchTerm);
        forall t | t in Split(lowered) && t != [] ensures false {
          SplitWords(lowered, t);
          BlankHasNoWords(lowered, t);
        }
      }
    }
    Split(lowered)
  }

  /** `searchTerms.every(term => eventString.includes(term))`. For blank-free
    * terms, which is what a split gives, this holds exactly when every term
    * occurs in one of the lower-cased fields: no match straddles two fields. */
  function MatchesAll(e: Event, terms: seq<string>): (r: bool)
    ensures (forall t :: t in terms ==> NoSpace(t)) ==>
      (r <==> forall t :: t in terms ==> exists k :: 0 <= k < |Fields(e)| && Contains(ToLower(Fields(e)[k]), t))
  {
    assert (forall t :: t in terms ==> NoSpace(t)) ==>
      forall t :: t in terms ==>
        (Contains(Haystack(e), t) <==> exists k :: 0 <= k < |Fields(e)| && Contains(ToLower(Fields(e)[k]), t))
    by {
      forall t | t in terms && NoSpace(t)
        ensures Contains(Haystack(e), t) <==> exists k :: 0 <= k < |Fields(e)| && Contains(ToLower(Fields(e)[k]), t)
      {
        NoCrossFieldMatch(e, t);
      }
    }
    forall t :: t in terms ==> Contains(Haystack(e), t)
  }

  /** `events.filter(...)` with the matching callback: an order-preserving
    * selection holding every matching event as often as the input does and
    * nothing else. */
  function Filter(events: seq<Event>, terms: seq<string>): (r: seq<Event>)
    ensures IsSubsequence(r, events)
    ensures forall e :: multiset(r)[e] == (if MatchesAll(e, terms) then multiset(events)[e] else 0)
  {
    if events == [] then []
    else
      assert events == [events[0]] + events[1..];
      var rest := Filter(events[1..], terms);
      if MatchesAll(events[0], terms) then
        assert ([events[0]] + rest)[1..] == rest;
        [events[0]] + rest
      else
        rest
  }

  /** Whether `searchEvents` keeps an event: the query is blank, or every one of
    * its terms occurs in the event's lower-cased text. */
  predicate KeptBy(e: Event, searchTerm: string) {
    AllSpace(searchTerm) || MatchesAll(e, SearchTerms(searchTerm))
  }

  /** `searchEvents(events, searchTerm)`: a blank query returns the events as
    * given; otherwise the events matching every term, in their original order. */
  function SearchEvents(events: seq<Event>, searchTerm: string): (r: seq<Event>)
    ensures IsSubsequence(r, events)
    ensures forall e :: multiset(r)[e] == (if KeptBy(e, searchTerm) then multiset(events)[e] else 0)
  {
    if Trim(searchTerm) == [] then
      SubsequenceReflexive(events);
      events
    else
      Filter(events, SearchTerms(searchTerm))
  }

  // ---------------------------------------------------------------------------
  // Properties of the search

  /** A query made only of blanks (or empty) returns the input unchanged. */
  lemma BlankQueryIsIdentity(events: seq<Event>, searchTerm: string)
    requires AllSpace(searchTerm)
    ensures SearchEvents(events, searchTerm) == events
  {
  }

  /** An event is in the result exactly when it is in the input and the query
    * is blank or every term occurs in the event's lower-cased text. */
  lemma SearchKeeps(events: seq<Event>, searchTerm: string, e: Event)
    ensures e in SearchEvents(events, searchTerm) <==>
      e in events && (AllSpace(searchTerm) || MatchesAll(e, SearchTerms(searchTerm)))
  {
    var r := SearchEvents(events, searchTerm);
    assert e in r <==> multiset(r)[e] > 0;
    assert e in events <==> multiset(events)[e] > 0;
  }

  /** Every term of the query is matched against the whole text. A term
    * never holds a blank, and the fields are separated by blanks only, so a
    * term occurs in the text exactly when it occurs in one of the lower-cased
    * fields: no match straddles two fields. A blank query gives empty terms
    * only, and those occur in every field. */
  lemma SearchKeepsByField(events: seq<Event>, searchTerm: string, e: Event)
    ensures e in SearchEvents(events, searchTerm) <==>
      e in events &&
      forall t :: t in SearchTerms(searchTerm) ==>
        exists k :: 0 <= k < |Fields(e)| && Contains(ToLower(Fields(e)[k]), t)
  {
    SearchKeeps(events, searchTerm, e);
    if AllSpace(searchTerm) {
      forall t | t in SearchTerms(searchTerm)
        ensures exists k :: 0 <= k < |Fields(e)| && Contains(ToLower(Fields(e)[k]), t)
      {
        assert Contains(ToLower(Fields(e)[0]), t);
      }
    }
  }

  /** An occurrence of the `k`-th field in the joined fields. */
  lemma {:induction false} FieldInJoined(fields: seq<string>, sep: string, k: nat)
    requires k < |fields|
    ensures Contains(Joined(fields, sep), fields[k])
    decreases |fields|
  {
    if |fields| > 1 {
      var rest := Joined(fields[1..], sep);
      if k == 0 {
        assert fields[0] <= fields[0] + sep + rest;
      } else {
        FieldInJoined(fields[1..], sep, k - 1);
        ContainsInfix(fields[0] + sep, rest, [], fields[k]);
        assert fields[0] + sep + rest + [] == Joined(fields, sep);
      }
    }
  }

  /** Lower-casing distributes over the joined fields. */
  lemma {:induction false} ToLowerJoined(fields: seq<string>, sep: string)
    ensures ToLower(Joined(fields, sep)) ==
      Joined(seq(|fields|, k requires 0 <= k < |fields| => ToLower(fields[k])), ToLower(sep))
    decreases |fields|
  {
    var lowered := seq(|fields|, k requires 0 <= k < |fields| => ToLower(fields[k]));
    if |fields| > 1 {
      ToLowerJoined(fields[1..], sep);
      var rest := seq(|fields| - 1, k requires 0 <= k < |fields| - 1 => ToLower(fields[1..][k]));
      assert lowered[1..] == rest;
      ToLowerAppend(fields[0] + sep, Joined(fields[1..], sep));
      ToLowerAppend(fields[0], sep);
    }
  }

  /** A non-empty, blank-free string occurs in fields joined by a non-empty
    * run of blanks exactly when it occurs in one of the fields. */
  lemma {:induction false} ContainsInJoined(fields: seq<string>, sep: string, t: string)
    requires |fields| >= 1
    requires t != [] && NoSpace(t) && sep != [] && AllSpace(sep)
    ensures Contains(Joined(fields, sep), t) <==> exists k :: 0 <= k < |fields| && Contains(fields[k], t)
    decreases |fields|
  {
    if |fields| > 1 {
      ContainsInJoined(fields[1..], sep, t);
      ContainsAcrossBlanks(fields[0], sep, Joined(fields[1..], sep), t);
      if exists k :: 0 <= k < |fields| && Contains(fields[k], t) {
        var k :| 0 <= k < |fields| && Contains(fields[k], t);
        if k > 0 {
          assert fields[1..][k - 1] == fields[k];
        }
      }
      if exists k :: 0 <= k < |fields| - 1 && Contains(fields[1..][k], t) {
        var k :| 0 <= k < |fields| - 1 && Contains(fields[1..][k], t);
        assert fields[k + 1] == fields[1..][k];
      }
    }
  }

  /** The fields of an event, each lower-cased. */
  function LoweredFields(e: Event): (r: seq<string>)
    ensures |r| == |Fields(e)|
    ensures forall k :: 0 <= k < |r| ==> r[k] == ToLower(Fields(e)[k])
  {
    seq(|Fields(e)|, k requires 0 <= k < |Fields(e)| => ToLower(Fields(e)[k]))
  }

  /** Lower-casing the template leaves its blank padding alone. */
  lemma HaystackShape(e: Event)
    ensures Haystack(e) == Indent + Joined(LoweredFields(e), FieldBreak) + Closing
  {
    var fields := Fields(e);
    assert ToLower(Indent) == Indent;
    assert ToLower(FieldBreak) == FieldBreak;
    assert ToLower(Closing) == Closing;
    ToLowerAppend(Indent + Joined(fields, FieldBreak), Closing);
    ToLowerAppend(Indent, Joined(fields, FieldBreak));
    ToLowerJoined(fields, FieldBreak);
    assert LoweredFields(e) == seq(|fields|, k requires 0 <= k < |fields| => ToLower(fields[k]));
  }

  /** The blank padding around the fields cannot hold a blank-free term. */
  lemma ContainsPadded(middle: string, t: string)
    requires t != [] && NoSpace(t)
    ensures Contains(Indent + middle + Closing, t) <==> Contains(middle, t)
  {
    ContainsAcrossBlanks(Indent + middle, Closing, [], t);
    assert Indent + middle + Closing + [] == Indent + middle + Closing;
    ContainsAcrossBlanks([], Indent, middle, t);
    assert [] + Indent + middle == Indent + middle;
  }

  /** A blank-free term occurs in an event's lower-cased text exactly when it
    * occurs in one of its lower-cased fields. */
  lemma NoCrossFieldMatch(e: Event, t: string)
    requires NoSpace(t)
    ensures Contains(Haystack(e), t) <==>
      exists k :: 0 <= k < |Fields(e)| && Contains(ToLower(Fields(e)[k]), t)
  {
    var lowered := LoweredFields(e);
    if t == [] {
      assert Contains(lowered[0], t);
    } else {
      HaystackShape(e);
      ContainsPadded(Joined(lowered, FieldBreak), t);
      ContainsInJoined(lowered, FieldBreak, t);
    }
  }

  /** A blank query splits into empty terms only, and those occur in every
    * text: without the blank-query guard the result would hold the same
    * events in the same order. */
  lemma BlankGuardIsRedundant(events: seq<Event>, searchTerm: string)
    ensures SearchEvents(events, searchTerm) == Filter(events, SearchTerms(searchTerm))
  {
    if AllSpace(searchTerm) {
      var terms := SearchTerms(searchTerm);
      forall e | e in events ensures MatchesAll(e, terms) {
        assert forall t :: t in terms ==> Contains(Haystack(e), t);
      }
      FilterKeepsAll(events, terms);
    }
  }

  lemma {:induction false} FilterKeepsAll(events: seq<Event>, terms: seq<string>)
    requires forall e :: e in events ==> MatchesAll(e, terms)
    ensures Filter(events, terms) == events
    decreases |events|
  {
    if events != [] {
      FilterKeepsAll(events[1..], terms);
    }
  }

  lemma {:induction false} FilterCongruent(events: seq<Event>, a: seq<string>, b: seq<string>)
    requires forall e :: e in events ==> (MatchesAll(e, a) <==> MatchesAll(e, b))
    ensures Filter(events, a) == Filter(events, b)
    decreases |events|
  {
    if events != [] {
      FilterCongruent(events[1..], a, b);
    }
  }

  /** Filtering twice is filtering once by both term lists. */
  lemma {:induction false} FilterOfFilter(events: seq<Event>, a: seq<string>, b: seq<string>)
    ensures Filter(Filter(events, a), b) == Filter(events, a + b)
    decreases |events|
  {
    if events != [] {
      FilterOfFilter(events[1..], a, b);
      var e := events[0];
      assert MatchesAll(e, a + b) <==> MatchesAll(e, a) && MatchesAll(e, b);
      if MatchesAll(e, a) {
        var once := Filter(events, a);
        assert once == [e] + Filter(events[1..], a);
        assert once[1..] == Filter(events[1..], a);
      }
    }
  }

  /** The terms of `q1 + " " + q2` match an event exactly when the terms of
    * `q1` and those of `q2` all do. */
  lemma TermsOfJoinedQuery(q1: string, q2: string, e: Event)
    ensures MatchesAll(e, SearchTerms(q1 + " " + q2)) <==> MatchesAll(e, SearchTerms(q1) + SearchTerms(q2))
  {
    var l1, l2 := ToLower(q1), ToLower(q2);
    ToLowerAppend(q1 + " ", q2);
    ToLowerAppend(q1, " ");
    assert ToLower(" ") == [' '];
    assert ToLower(q1 + " " + q2) == l1 + [' '] + l2;
    forall t | t != []
      ensures t in Split(l1 + [' '] + l2) <==> t in Split(l1) || t in Split(l2)
    {
      SplitWords(l1 + [' '] + l2, t);
      SplitWords(l1, t);
      SplitWords(l2, t);
      WordsOfJoin(l1, ' ', l2, t);
    }
  }

  /** Searching the result of a search is one search by both queries joined
    * with a space. */
  lemma SearchComposes(events: seq<Event>, q1: string, q2: string)
    ensures SearchEvents(SearchEvents(events, q1), q2) == SearchEvents(events, q1 + " " + q2)
  {
    BlankGuardIsRedundant(events, q1);
    BlankGuardIsRedundant(SearchEvents(events, q1), q2);
    BlankGuardIsRedundant(events, q1 + " " + q2);
    FilterOfFilter(events, SearchTerms(q1), SearchTerms(q2));
    forall e | e in events
      ensures MatchesAll(e, SearchTerms(q1 + " " + q2)) <==> MatchesAll(e, SearchTerms(q1) + SearchTerms(q2))
    {
      TermsOfJoinedQuery(q1, q2, e);
    }
    FilterCongruent(events, SearchTerms(q1 + " " + q2), SearchTerms(q1) + SearchTerms(q2));
  }

  /** The result depends on the query only through its lower-cased form. */
  lemma SearchIgnoresQueryCase(events: seq<Event>, q1: string, q2: string)
    requires ToLower(q1) == ToLower(q2)
    ensures SearchEvents(events, q1) == SearchEvents(events, q2)
  {
    BlankGuardIsRedundant(events, q1);
    BlankGuardIsRedundant(events, q2);
  }

  /** Upper-casing the query's ASCII letters never changes the result. */
  lemma SearchUpperCaseQuery(events: seq<Event>, searchTerm: string)
    ensures SearchEvents(events, ToUpper(searchTerm)) == SearchEvents(events, searchTerm)
  {
    ToLowerOfUpper(searchTerm);
    SearchIgnoresQueryCase(events, ToUpper(searchTerm), searchTerm);
  }

  /** A query that starts or ends with a blank yields an empty term, which
    * every event matches. */
  lemma EmptyTermFromOuterBlank(searchTerm: string, e: Event)
    ensures [] in SearchTerms(searchTerm) <==>
      searchTerm == [] || IsSpace(searchTerm[0]) || IsSpace(searchTerm[|searchTerm| - 1])
    ensures MatchesAll(e, [[]])
  {
    ToLowerKeepsSpaces(searchTerm);
    SplitEmptyPiece(ToLower(searchTerm));
  }
}
