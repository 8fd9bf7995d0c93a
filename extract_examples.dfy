/** The extractor's documented examples, derived from the general lemmas. */
module ExtractExamples {
  import opened Wrappers
  import opened Text
  import opened Numerals
  import opened Extract

  /** Deleting "Size:" keeps the blank after it: "Size: M" gives " M". */
  lemma SizeKeepsBlank()
    ensures RemoveAll("Size: M", "Size:") == " M"
  {
    assert StartsWith("Size: M", "Size:");
    assert "Size: M"[5..] == " M";
    ContainsLength(" M", "Size:");
  }

  lemma NoRatingLabel()
    ensures RemoveAll("4.5/5\U{2B50}", "Rating:") == "4.5/5\U{2B50}"
  {
    ContainsLength("4.5/5\U{2B50}", "Rating:");
  }

  lemma RatingLabelDeleted()
    ensures RemoveAll("Rating:4.5/5\U{2B50}", "Rating:") == "4.5/5\U{2B50}"
  {
    assert StartsWith("Rating:4.5/5\U{2B50}", "Rating:");
    assert "Rating:4.5/5\U{2B50}"[7..] == "4.5/5\U{2B50}";
    NoRatingLabel();
  }

  lemma StarDeleted()
    ensures Without("4.5/5\U{2B50}", Star) == "4.5/5"
  {
    var s := "4.5/5\U{2B50}";
    assert s[1..] == ".5/5\U{2B50}" && s[1..][1..] == "5/5\U{2B50}";
    assert s[1..][1..][1..] == "/5\U{2B50}" && s[1..][1..][1..][1..] == "5\U{2B50}";
    assert s[1..][1..][1..][1..][1..] == "\U{2B50}";
    assert Without("\U{2B50}", Star) == [];
  }

  /** "Rating:4.5/5⭐" gives the rating text "4.5". */
  lemma RatingWithStar()
    ensures RatingText("Rating:4.5/5\U{2B50}") == "4.5"
  {
    RatingLabelDeleted();
    StarDeleted();
    assert "4.5/5"[..3] == "4.5";
    RatingTextBefore("Rating:4.5/5\U{2B50}", "4.5/5", 3);
  }

  lemma FiveHundred()
    ensures Pad(500, 3) == "500"
  {
    assert Pad(5, 1) == "5";
    assert Pad(50, 2) == "50";
  }

  /** Half a second past the second ends in ".500", whatever the date and time. */
  lemma HalfSecond(c: Clock)
    requires ValidClock(c) && c.microsecond == 500000
    ensures var r := Timestamp(c);
      |r| >= 4 && r[|r| - 4..] == ".500"
  {
    TimestampEnd(c);
    FiveHundred();
  }
}
