/** The normalizers' documented examples, derived from the general lemmas. */
module CleanExamples {
  import opened Wrappers
  import opened Text
  import opened Numerals
  import opened Clean

  /** The catalog writes a hundred dollars as "100.00". */
  lemma HundredText()
    ensures FormatDollars(100, 0) == "100.00"
  {
    assert NatToString(1) == "1";
    assert NatToString(10) == NatToString(1) + "0";
    assert NatToString(100) == NatToString(10) + "0";
    assert Pad(0, 2) == "00";
  }

  /** "$100.00" is 1600000 rupiah. */
  lemma HundredDollars()
    ensures CleanPrice(Some("$" + FormatDollars(100, 0))) == Some(1600000.0)
  {
    FormatDollarsShape(100, 0);
    ParseFormatDollars(100, 0, 100.0);
    PriceOfStripped(FormatDollars(100, 0), 100.0);
  }

  /** The catalog writes nothing as "0.00". */
  lemma ZeroText()
    ensures FormatDollars(0, 0) == "0.00"
  {
    assert NatToString(0) == "0";
    assert Pad(0, 2) == "00";
  }

  /** "$0.00" is 0 rupiah, not absent. */
  lemma ZeroDollars()
    ensures CleanPrice(Some("$" + FormatDollars(0, 0))) == Some(0.0)
  {
    assert Some(0.0 * 16000.0) == Some(0.0);
    FormatDollarsShape(0, 0);
    ParseFormatDollars(0, 0, 0.0);
    PriceOfStripped(FormatDollars(0, 0), 0.0);
  }

  /** A null and the sentinel are absent prices. */
  lemma PricesAbsent()
    ensures CleanPrice(None) == None
    ensures CleanPrice(Some("Price Unavailable")) == None
  {
  }

  /** Text without a `$` is no price, even when it reads as a number. */
  lemma PricesWithoutDollar()
    ensures CleanPrice(Some("invalid")) == None
    ensures CleanPrice(Some("100.00")) == None
  {
    assert '$' !in "invalid";
    assert '$' !in "100.00";
  }

  /** "4.8" reads as 4.8. */
  lemma FourPointEight()
    ensures ParseDecimal("4.8") == Some(4.8)
  {
    assert IndexOf("4.8", '.') == 1;
    assert "4.8"[..1] == "4" && "4.8"[2..] == "8";
    assert DigitsValue("8") == 8;
    assert DigitsValue("4") == 4;
  }

  lemma OutOfFiveIsNotSentinel()
    ensures !IsRatingSentinel("4.8 / 5")
  {
    ContainsLength("4.8 / 5", "Invalid Rating");
    ContainsLength("4.8 / 5", "Not Rated");
  }

  lemma OutOfFiveBeforeSlash()
    ensures '/' in "4.8 / 5"
    ensures BeforeFirst("4.8 / 5", '/') == "4.8 "
  {
    var v := "4.8 / 5";
    assert v[4] == '/';
    assert v[..4] == "4.8 ";
    IndexOfUnique(v, '/', 4);
  }

  lemma StripTrailingBlank()
    ensures Strip("4.8 ") == "4.8"
  {
    StripThenBlank("4.8");
  }

  lemma RatingOutOfFive()
    ensures CleanRating(Some("4.8 / 5")) == Some(4.8)
  {
    OutOfFiveIsNotSentinel();
    OutOfFiveBeforeSlash();
    StripTrailingBlank();
    RatingBeforeSlash("4.8 / 5");
    FourPointEight();
  }

  lemma RatingThree()
    ensures CleanRating(Some("3")) == Some(3.0)
  {
    ContainsLength("3", "Invalid Rating");
    ContainsLength("3", "Not Rated");
    RatingWithoutSlash("3");
    assert DigitsValue("3") == 3;
  }

  lemma PlainRatingText()
    ensures !IsRatingSentinel("4.8") && '/' !in "4.8" && Strip("4.8") == "4.8"
  {
    ContainsLength("4.8", "Invalid Rating");
    ContainsLength("4.8", "Not Rated");
    assert IsStripped("4.8");
  }

  lemma RatingPlain()
    ensures CleanRating(Some("4.8")) == Some(4.8)
  {
    PlainRatingText();
    RatingWithoutSlash("4.8");
    FourPointEight();
  }

  lemma RatingSentinels()
    ensures CleanRating(Some("Invalid Rating")) == None
    ensures CleanRating(Some("Not Rated")) == None
    ensures CleanRating(Some("Price Unavailable")) == None
    ensures CleanRating(None) == None
  {
    assert StartsWith("Invalid Rating", "Invalid Rating");
    assert StartsWith("Not Rated", "Not Rated");
  }

  lemma ThreeColors()
    ensures CleanColors(Some("3 Colors")) == Some(3)
  {
    var a := "3 Colors";
    assert SkipSpaces(a, 2) == 2;
    assert SkipSpaces(a, 1) == 2;
    assert a[2..] == "Colors";
    assert ColorRun(a, 0, 1);
    ColorsOfFirstRun(a, 0, 1);
    assert a[0..1] == "3" && DigitsValue("3") == 3;
  }

  lemma OneColor()
    ensures CleanColors(Some("1 Color")) == Some(1)
  {
    var b := "1 Color";
    assert SkipSpaces(b, 2) == 2;
    assert SkipSpaces(b, 1) == 2;
    assert b[2..] == "Color";
    assert ColorRun(b, 0, 1);
    ColorsOfFirstRun(b, 0, 1);
    assert b[0..1] == "1" && DigitsValue("1") == 1;
  }

  lemma TenColors()
    ensures CleanColors(Some("10 Colors")) == Some(10)
  {
    var c := "10 Colors";
    assert SkipSpaces(c, 3) == 3;
    assert SkipSpaces(c, 2) == 3;
    assert c[3..] == "Colors";
    assert ColorRun(c, 0, 2);
    ColorsOfFirstRun(c, 0, 2);
    assert c[0..2] == "10";
    assert DigitsValue("1") == 1;
    assert "10"[..1] == "1";
    assert DigitsValue("10") == 10;
  }

  /** A text without digits has no colour count. */
  lemma NoDigitsNoColors(s: string)
    requires forall m :: 0 <= m < |s| ==> !IsDigit(s[m])
    ensures CleanColors(Some(s)) == None
  {
    forall i: nat, j: nat ensures !ColorRun(s, i, j) {
      if i < j <= |s| {
        assert !IsDigit(s[i]);
      }
    }
    ColorsWithoutRun(s);
  }

  lemma NoColorCounts()
    ensures CleanColors(Some("Colors")) == None
    ensures CleanColors(Some("Invalid Colors")) == None
    ensures CleanColors(None) == None
  {
    NoDigitsNoColors("Colors");
    NoDigitsNoColors("Invalid Colors");
  }

  lemma SizeExamples()
    ensures CleanSize(Some("Size: M")) == Some("M")
    ensures CleanSize(Some("Size: XL")) == Some("XL")
    ensures CleanSize(Some("M")) == Some("M")
    ensures CleanSize(None) == None
  {
    assert StartsWith("Size: M", "Size:");
    assert "Size: M"[5..] == " M";
    ContainsLength(" M", "Size:");
    StripBlankThen("M");
    assert StartsWith("Size: XL", "Size:");
    assert "Size: XL"[5..] == " XL";
    ContainsLength(" XL", "Size:");
    StripBlankThen("XL");
  }

  lemma GenderMen()
    ensures CleanGender(Some("Gender: Men")) == Some("Men")
  {
    assert StartsWith("Gender: Men", "Gender:");
    assert "Gender: Men"[7..] == " Men";
    ContainsLength(" Men", "Gender:");
    StripBlankThen("Men");
  }

  lemma GenderWomen()
    ensures CleanGender(Some("Gender: Women")) == Some("Women")
  {
    assert StartsWith("Gender: Women", "Gender:");
    assert "Gender: Women"[7..] == " Women";
    ContainsLength(" Women", "Gender:");
    StripBlankThen("Women");
  }

  lemma GenderPlain()
    ensures CleanGender(Some("Unisex")) == Some("Unisex")
    ensures CleanGender(None) == None
  {
  }

  lemma DeleteSizeTail()
    ensures RemoveAll("Size:ze:", "Size:") == "ze:"
  {
    assert StartsWith("Size:ze:", "Size:");
    assert "Size:ze:"[5..] == "ze:";
    ContainsLength("ze:", "Size:");
  }

  lemma DeleteSizeMiddle()
    ensures RemoveAll("iSize:ze:", "Size:") == "ize:"
  {
    StartsWithMismatch("iSize:ze:", "Size:", 0);
    assert "iSize:ze:"[1..] == "Size:ze:";
    DeleteSizeTail();
  }

  lemma DeleteSizeInner()
    ensures RemoveAll("SiSize:ze:", "Size:") == "Size:"
  {
    StartsWithMismatch("SiSize:ze:", "Size:", 2);
    assert "SiSize:ze:"[1..] == "iSize:ze:";
    DeleteSizeMiddle();
  }

  lemma DeleteSizeAll()
    ensures RemoveAll("Size:SiSize:ze:", "Size:") == "Size:"
  {
    assert StartsWith("Size:SiSize:ze:", "Size:");
    assert "Size:SiSize:ze:"[5..] == "SiSize:ze:";
    DeleteSizeInner();
  }

  /** Cleaning "Size:SiSize:ze:" deletes both tags and leaves a new one. */
  lemma SizeLeavesTag()
    ensures CleanSize(Some("Size:SiSize:ze:")) == Some("Size:")
  {
    var v := "Size:SiSize:ze:";
    assert IsStripped(v) by {
      assert v[0] == 'S' && v[|v| - 1] == ':';
    }
    assert StartsWith(v, "Size:");
    DeleteSizeAll();
    assert IsStripped("Size:") by {
      assert "Size:"[0] == 'S' && "Size:"[4] == ':';
    }
  }

  /** The tag alone cleans to the empty text. */
  lemma SizeTagAlone()
    ensures CleanSize(Some("Size:")) == Some("")
  {
    assert IsStripped("Size:") by {
      assert "Size:"[0] == 'S' && "Size:"[4] == ':';
    }
    assert StartsWith("Size:", "Size:");
    assert "Size:"[5..] == "";
    assert RemoveAll("", "Size:") == "";
  }

  /**
   * Deleting every "Size:" can leave a new "Size:" prefix, so cleaning a
   * cleaned size is not always the identity.
   */
  lemma SizeNotIdempotent()
    ensures CleanSize(CleanSize(Some("Size:SiSize:ze:"))) != CleanSize(Some("Size:SiSize:ze:"))
  {
    SizeLeavesTag();
    SizeTagAlone();
  }
}
