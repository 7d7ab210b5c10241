/** `generateKeywords`: the duplicate-free list of search terms of an event. */
module Keywords {
  import opened JsString
  import opened Sequences
  import opened Events

  /** The words longer than two characters, in order. */
  function LongWords(words: seq<string>): (r: seq<string>)
    ensures forall w :: w in r <==> w in words && |w| > 2
  {
    if words == [] then []
    else
      var last := words[|words| - 1];
      LongWords(words[..|words| - 1]) + (if |last| > 2 then [last] else [])
  }

  /** The long words keep the order they have among the words. */
  lemma {:induction false} LongWordsInOrder(words: seq<string>)
    ensures IsSubsequence(LongWords(words), words)
    decreases |words|
  {
    if words == [] {
    } else {
      var init, last := words[..|words| - 1], words[|words| - 1];
      var r := LongWords(init);
      LongWordsInOrder(init);
      assert words == init + [last];
      SubsequenceSnoc(r, init, last);
      if |last| > 2 {
        assert LongWords(words) == r + [last];
      } else {
        assert LongWords(words) == r + [] == r;
      }
    }
  }

  /** Each long word is kept as often as it occurs among the words, and no
    * short word is kept. */
  lemma {:induction false} LongWordsCount(words: seq<string>)
    ensures forall w :: multiset(LongWords(words))[w] == if |w| > 2 then multiset(words)[w] else 0
    decreases |words|
  {
    if words != [] {
      var init := words[..|words| - 1];
      LongWordsCount(init);
      LongCountSnoc(LongWords(init), words);
    }
  }

  /** Keeping the last word when it is long keeps the counts right. */
  lemma LongCountSnoc(r: seq<string>, words: seq<string>)
    requires words != []
    requires forall w :: multiset(r)[w] == if |w| > 2 then multiset(words[..|words| - 1])[w] else 0
    ensures var last := words[|words| - 1];
      var tail := if |last| > 2 then [last] else [];
      forall w :: multiset(r + tail)[w] == if |w| > 2 then multiset(words)[w] else 0
  {
    var init, last := words[..|words| - 1], words[|words| - 1];
    assert words == init + [last];
    assert multiset(words) == multiset(init) + multiset{last};
    if |last| > 2 {
      assert multiset(r + [last]) == multiset(r) + multiset{last};
    } else {
      assert r + [] == r;
    }
  }

  /** The words longer than two characters of a lower-cased, split field;
    * none of them holds a blank. */
  function FieldWords(text: string): (r: seq<string>)
    ensures forall w :: w in r ==> |w| > 2 && NoSpace(w)
  {
    LongWords(Split(ToLower(text)))
  }

  /** The location words: none unless the type as given (before lower-casing)
    * is exactly "venue" and the location is present and non-empty; then the
    * lower-cased location's words longer than two characters. */
  function LocationWords(e: Event): (r: seq<string>)
    ensures r != [] ==> e.kind == "venue" && IsPresent(e.location)
    ensures e.kind == "venue" && IsPresent(e.location) ==>
      forall w :: w in r <==> |w| > 2 && IsWordOf(w, ToLower(e.location.value))
  {
    if e.kind == "venue" && IsPresent(e.location) then
      FieldWordsAreWords(e.location.value);
      FieldWords(e.location.value)
    else []
  }

  /** The description words: none unless the description is present and
    * non-empty; then the lower-cased description's words longer than two
    * characters. */
  function DescriptionWords(e: Event): (r: seq<string>)
    ensures r != [] ==> IsPresent(e.description)
    ensures IsPresent(e.description) ==>
      forall w :: w in r <==> |w| > 2 && IsWordOf(w, ToLower(e.description.value))
  {
    if IsPresent(e.description) then
      FieldWordsAreWords(e.description.value);
      FieldWords(e.description.value)
    else []
  }

  /** Everything `generateKeywords` adds to its set, in the order it adds it:
    * title words, category, type, location words, description words. The
    * category and type are always added; everything else is longer than two
    * characters. */
  function Additions(e: Event): (r: seq<string>)
    ensures FieldWords(e.title) <= r
    ensures ToLower(e.category) in r && ToLower(e.kind) in r
    ensures forall w :: w in r ==> |w| > 2 || w == ToLower(e.category) || w == ToLower(e.kind)
  {
    var title, category, kind := FieldWords(e.title), ToLower(e.category), ToLower(e.kind);
    var location, description := LocationWords(e), DescriptionWords(e);
    InOrder(title, category, kind, location, description);
    title + [category] + [kind] + location + description
  }

  /** Title words, category, type, location words and description words one
    * after the other: the title words come first and the list holds exactly
    * the parts' elements. */
  lemma InOrder(title: seq<string>, category: string, kind: string, location: seq<string>, description: seq<string>)
    ensures var r := title + [category] + [kind] + location + description;
      && title <= r
      && forall w :: w in r <==> w in title || w == category || w == kind || w in location || w in description
  {
  }

  /** The keywords of an event: the set's contents in first-insertion order.
    * No keyword is repeated, the lower-cased category and type are always
    * there whatever their length, and every other keyword is longer than two
    * characters. */
  function Keywords(e: Event): (r: seq<string>)
    ensures NoDuplicates(r)
    ensures ToLower(e.category) in r && ToLower(e.kind) in r
    ensures forall w :: w in r ==> |w| > 2 || w == ToLower(e.category) || w == ToLower(e.kind)
  {
    FromSeq(Additions(e))
  }

  /** One more word of the loop keeps the long words found so far and
    * appends the word when it is longer than two characters. */
  lemma LongWordsStep(added: seq<string>, words: seq<string>, i: nat)
    requires i < |words|
    ensures added + LongWords(words[..i + 1]) ==
      added + LongWords(words[..i]) + (if |words[i]| > 2 then [words[i]] else [])
  {
    assert words[..i + 1][..i] == words[..i];
  }

  /** One `forEach` loop: adds each word longer than two characters to the set.
    * `added` is what was added to the set before. */
  method AddLongWords(keywordSet: seq<string>, words: seq<string>, ghost added: seq<string>)
    returns (r: seq<string>)
    requires keywordSet == FromSeq(added)
    ensures r == FromSeq(added + LongWords(words))
  {
    r := keywordSet;
    var i := 0;
    assert added + LongWords(words[..0]) == added by { assert words[..0] == []; }
    while i < |words|
      invariant 0 <= i <= |words|
      invariant r == FromSeq(added + LongWords(words[..i]))
    {
      var word := words[i];
      ghost var before := added + LongWords(words[..i]);
      LongWordsStep(added, words, i);
      if |word| > 2 {
        FromSeqAppend(before, word);
        r := Insert(r, word);
      } else {
        assert before + [] == before;
      }
      i := i + 1;
    }
    assert words[..|words|] == words;
  }

  /** `generateKeywords(event)`. */
  method GenerateKeywords(e: Event) returns (keywords: seq<string>)
    ensures keywords == Keywords(e)
    ensures NoDuplicates(keywords)
    ensures ToLower(e.category) in keywords && ToLower(e.kind) in keywords
  {
    var keywordSet: seq<string> := [];

    // title words
    keywordSet := AddLongWords(keywordSet, Split(ToLower(e.title)), []);
    assert [] + FieldWords(e.title) == FieldWords(e.title);
    ghost var added := FieldWords(e.title);

    // category and type, whatever their length
    FromSeqAppend(added, ToLower(e.category));
    keywordSet := Insert(keywordSet, ToLower(e.category));
    added := added + [ToLower(e.category)];
    FromSeqAppend(added, ToLower(e.kind));
    keywordSet := Insert(keywordSet, ToLower(e.kind));
    added := added + [ToLower(e.kind)];

    // location words of a venue
    if e.kind == "venue" && IsPresent(e.location) {
      keywordSet := AddLongWords(keywordSet, Split(ToLower(e.location.value)), added);
    } else {
      assert LocationWords(e) == [];
      assert added + [] == added;
    }
    added := added + LocationWords(e);
    assert keywordSet == FromSeq(added);

    // description words
    if IsPresent(e.description) {
      keywordSet := AddLongWords(keywordSet, Split(ToLower(e.description.value)), added);
    } else {
      assert DescriptionWords(e) == [];
      assert added + [] == added;
    }
    added := added + DescriptionWords(e);
    assert keywordSet == FromSeq(added);

    keywords := keywordSet;
  }

  /** The long words of a field are exactly its whitespace-delimited words of
    * more than two characters, after lower-casing. */
  lemma FieldWordsAreWords(text: string)
    ensures forall w :: w in FieldWords(text) <==> |w| > 2 && IsWordOf(w, ToLower(text))
  {
    forall w | |w| > 2 ensures w in FieldWords(text) <==> IsWordOf(w, ToLower(text)) {
      SplitWords(ToLower(text), w);
    }
  }

  /** Provenance and completeness: a string is a keyword exactly when it is the
    * lower-cased category or type, or a lower-cased word of more than two
    * characters of the title, of the description when present, or of the
    * location when present and the type is exactly "venue". */
  lemma KeywordsExactly(e: Event, k: string)
    ensures k in Keywords(e) <==>
      || k == ToLower(e.category)
      || k == ToLower(e.kind)
      || (|k| > 2 && IsWordOf(k, ToLower(e.title)))
      || (|k| > 2 && e.kind == "venue" && IsPresent(e.location) && IsWordOf(k, ToLower(e.location.value)))
      || (|k| > 2 && IsPresent(e.description) && IsWordOf(k, ToLower(e.description.value)))
  {
    FieldWordsAreWords(e.title);
    InOrder(FieldWords(e.title), ToLower(e.category), ToLower(e.kind), LocationWords(e), DescriptionWords(e));
  }

  /** Keywords keep first-insertion order: the title's distinct long words come
    * first, in title order, and any two keywords are in the order of their
    * first addition. */
  lemma KeywordsOrder(e: Event)
    ensures FromSeq(FieldWords(e.title)) <= Keywords(e)
    ensures forall i, j :: 0 <= i < j < |Keywords(e)| ==>
      FirstIndex(Additions(e), Keywords(e)[i]) < FirstIndex(Additions(e), Keywords(e)[j])
  {
    FromSeqOfPrefix(FieldWords(e.title), Additions(e));
    FromSeqFirstOccurrenceOrder(Additions(e));
  }
}
