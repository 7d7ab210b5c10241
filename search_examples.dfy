/** Two worked searches over one venue event. */
module SearchExamples {
  import opened JsString
  import opened Sequences
  import opened Events
  import opened EventSearch

  const CareerFair := Event("Career Fair", "work", "venue", Some("Lagos Hall"), Some("Meet employers"))

  lemma SplitWork()
    ensures Split("work") == ["work"]
  {
    assert WordEnd("work", 0) == 4;
  }

  lemma SplitLagosWork()
    ensures Split("lagos work") == ["lagos", "work"]
  {
    var q := "lagos work";
    assert WordEnd(q, 0) == 5;
    assert GapEnd(q, 5) == 6;
    assert q[6..] == "work" && q[..5] == "lagos";
    SplitWork();
  }

  lemma LowerLagosWork()
    ensures ToLower("lagos work") == "lagos work"
  {
    ToLowerOfLower("lagos work");
  }

  lemma LagosWorkTerms()
    ensures SearchTerms("lagos work") == ["lagos", "work"]
  {
    LowerLagosWork();
    SplitLagosWork();
  }

  lemma CareerFairFieldsContain()
    ensures Contains(ToLower(Fields(CareerFair)[3]), "lagos")
    ensures Contains(ToLower(Fields(CareerFair)[1]), "work")
  {
    assert ToLower(Fields(CareerFair)[3]) == "lagos hall";
    assert "lagos" <= "lagos hall"[0..];
    assert ToLower(Fields(CareerFair)[1]) == "work";
    assert "work" <= "work"[0..];
  }

  /** "lagos" occurs in the location and "work" is the category: kept. */
  lemma CareerFairFoundByLocationAndCategory()
    ensures CareerFair in SearchEvents([CareerFair], "lagos work")
  {
    var terms := SearchTerms("lagos work");
    LagosWorkTerms();
    CareerFairFieldsContain();
    forall t | t in terms
      ensures exists k :: 0 <= k < |Fields(CareerFair)| && Contains(ToLower(Fields(CareerFair)[k]), t)
    {
      var k := if t == "lagos" then 3 else 1;
      assert Contains(ToLower(Fields(CareerFair)[k]), t);
    }
    SearchKeepsByField([CareerFair], "lagos work", CareerFair);
  }

  /** A string holding a character that `s` lacks does not occur in `s`. */
  lemma MissingChar(s: string, t: string, c: char)
    requires c in t && c !in s
    ensures !Contains(s, t)
  {
  }

  /** A small letter that a string holds in neither case is missing from its
    * lower-case form. */
  lemma LetterNotInLower(s: string, c: char)
    requires 'a' <= c <= 'z' && c !in s && UpperChar(c) !in s
    ensures c !in ToLower(s)
  {
  }

  /** A field holding one letter of "online" in neither case does not hold it. */
  lemma OnlineNotIn(f: string, c: char)
    requires c in "online" && 'a' <= c <= 'z' && c !in f && UpperChar(c) !in f
    ensures !Contains(ToLower(f), "online")
  {
    LetterNotInLower(f, c);
    MissingChar(ToLower(f), "online", c);
  }

  lemma OnlineNotInTitle() ensures !Contains(ToLower("Career Fair"), "online") { OnlineNotIn("Career Fair", 'o'); }
  lemma OnlineNotInCategory() ensures !Contains(ToLower("work"), "online") { OnlineNotIn("work", 'n'); }
  lemma OnlineNotInType() ensures !Contains(ToLower("venue"), "online") { OnlineNotIn("venue", 'o'); }
  lemma OnlineNotInLocation() ensures !Contains(ToLower("Lagos Hall"), "online") { OnlineNotIn("Lagos Hall", 'n'); }
  lemma OnlineNotInDescription() ensures !Contains(ToLower("Meet employers"), "online") { OnlineNotIn("Meet employers", 'n'); }

  lemma OnlineNotInCareerFair(k: nat)
    requires k < |Fields(CareerFair)|
    ensures !Contains(ToLower(Fields(CareerFair)[k]), "online")
  {
    assert Fields(CareerFair) == ["Career Fair", "work", "venue", "Lagos Hall", "Meet employers"];
    if k == 0 {
      OnlineNotInTitle();
    } else if k == 1 {
      OnlineNotInCategory();
    } else if k == 2 {
      OnlineNotInType();
    } else if k == 3 {
      OnlineNotInLocation();
    } else {
      OnlineNotInDescription();
    }
  }

  lemma LowerCareerFairOnline()
    ensures ToLower("career fair online") == "career fair online"
  {
    ToLowerOfLower("career fair online");
  }

  lemma OnlineIsATerm()
    ensures "online" in SearchTerms("career fair online")
  {
    var q := "career fair online";
    LowerCareerFairOnline();
    assert IsWordAt(q, 12, 18);
    assert q[12..18] == "online";
    SplitWords(q, "online");
  }

  /** "online" occurs in no field: dropped, although "career" and "fair" match. */
  lemma CareerFairMissedByOnline()
    ensures CareerFair !in SearchEvents([CareerFair], "career fair online")
  {
    var q := "career fair online";
    OnlineIsATerm();
    SearchKeepsByField([CareerFair], q, CareerFair);
    if CareerFair in SearchEvents([CareerFair], q) {
      var k :| 0 <= k < |Fields(CareerFair)| && Contains(ToLower(Fields(CareerFair)[k]), "online");
      OnlineNotInCareerFair(k);
    }
  }
}
