/** The cases of StringUtilsTest, stated about the model. The ISBN and password cases hold for
    every classifier that agrees with the Unicode tables on ASCII (`Sound`). Each string of a
    test is spelled out as code units by a lemma of its own (the `Spell` lemmas). */
module StringUtilsExamples {
  import opened JavaLang
  import opened StringUtils

  // ---------------------------------------------------------------------------------------
  // isBlank

  /** null and "" are blank; " ", a tab, a newline and "abc" are not. */
  lemma BlankCases()
    ensures IsBlank(Null) && IsBlank(Ref(CodeUnits("")))
    ensures !IsBlank(Ref(CodeUnits(" "))) && !IsBlank(Ref(CodeUnits("\t")))
    ensures !IsBlank(Ref(CodeUnits("\n"))) && !IsBlank(Ref(CodeUnits("abc")))
  {
  }

  // ---------------------------------------------------------------------------------------
  // strip

  /** "ABCabc123" */
  const LETTERS_AND_DIGITS: JString := [0x41, 0x42, 0x43] + [0x61, 0x62, 0x63] + [0x31, 0x32, 0x33]

  lemma SpellLettersAndDigits() ensures CodeUnits("ABCabc123") == LETTERS_AND_DIGITS {}
  lemma SpellInterleaved() ensures CodeUnits("4a5b6c7") == INTERLEAVED {}
  lemma SpellUpperAndDigits() ensures CodeUnits("ABC123") == [0x41, 0x42, 0x43] + [0x31, 0x32, 0x33] {}

  /** Stripping from the empty string, stripping nothing, and stripping everything. */
  lemma StripEdgeCases()
    ensures Filter(CodeUnits(""), NotIn(CodeUnits("ABCabc123"))) == CodeUnits("")
    ensures Filter(CodeUnits("ABCabc123"), NotIn(CodeUnits(""))) == CodeUnits("ABCabc123")
    ensures Filter(CodeUnits("ABCabc123"), NotIn(CodeUnits("ABCabc123"))) == CodeUnits("")
  {
    SpellLettersAndDigits();
    StripNothing(LETTERS_AND_DIGITS);
    StripSelf(LETTERS_AND_DIGITS);
  }

  /** "ABCabc123" without the characters of "4a5b6c7" is "ABC123". */
  lemma StripMiddle()
    ensures Filter(CodeUnits("ABCabc123"), NotIn(CodeUnits("4a5b6c7"))) == CodeUnits("ABC123")
  {
    SpellLettersAndDigits();
    SpellInterleaved();
    SpellUpperAndDigits();
    StripMiddleParts();
  }

  /** The code units "4a5b6c7" removes. */
  const INTERLEAVED: JString := [0x34, 0x61, 0x35, 0x62, 0x36, 0x63, 0x37]

  /** The same, on the code units, one block of three at a time. */
  lemma StripMiddleParts()
    ensures Filter(LETTERS_AND_DIGITS, NotIn(INTERLEAVED)) == [0x41, 0x42, 0x43] + [0x31, 0x32, 0x33]
  {
    var upper, lower, digits: JString := [0x41, 0x42, 0x43], [0x61, 0x62, 0x63], [0x31, 0x32, 0x33];
    FilterAppend(upper + lower, digits, NotIn(INTERLEAVED));
    FilterAppend(upper, lower, NotIn(INTERLEAVED));
    StripBlocks();
  }

  /** 'A'..'C' and '1'..'3' are kept, 'a'..'c' are removed. */
  lemma StripBlocks()
    ensures Filter([0x41, 0x42, 0x43], NotIn(INTERLEAVED)) == [0x41, 0x42, 0x43]
    ensures Filter([0x61, 0x62, 0x63], NotIn(INTERLEAVED)) == []
    ensures Filter([0x31, 0x32, 0x33], NotIn(INTERLEAVED)) == [0x31, 0x32, 0x33]
  {
    FilterKeepsAll([0x41, 0x42, 0x43], NotIn(INTERLEAVED));
    FilterDropsAll([0x61, 0x62, 0x63], NotIn(INTERLEAVED));
    FilterKeepsAll([0x31, 0x32, 0x33], NotIn(INTERLEAVED));
  }

  /** "DEFdef456" shares nothing with "ABCabc123", which stays as it is. */
  lemma StripDisjoint()
    ensures Filter(CodeUnits("ABCabc123"), NotIn(CodeUnits("DEFdef456"))) == CodeUnits("ABCabc123")
  {
    SpellLettersAndDigits();
    SpellOtherLetters();
    FilterKeepsAll(LETTERS_AND_DIGITS, NotIn(OTHER_LETTERS));
  }

  /** "DEFdef456" */
  const OTHER_LETTERS: JString := [0x44, 0x45, 0x46, 0x64, 0x65, 0x66, 0x34, 0x35, 0x36]

  lemma SpellOtherLetters() ensures CodeUnits("DEFdef456") == OTHER_LETTERS {}
  lemma SpellFirstRemoved()
    ensures CodeUnits("XAZ") == [0x58, 0x41, 0x5A]
    ensures CodeUnits("BCabc123") == LETTERS_AND_DIGITS[1..]
  {
  }
  lemma SpellLastRemoved()
    ensures CodeUnits("X3Z") == [0x58, 0x33, 0x5A]
    ensures CodeUnits("ABCabc12") == LETTERS_AND_DIGITS[..8]
  {
  }

  /** Only the first code unit of "ABCabc123" is in "XAZ". */
  lemma StripFirst()
    ensures Filter(CodeUnits("ABCabc123"), NotIn(CodeUnits("XAZ"))) == CodeUnits("BCabc123")
  {
    SpellLettersAndDigits();
    SpellFirstRemoved();
    var keep := NotIn([0x58, 0x41, 0x5A]);
    assert LETTERS_AND_DIGITS == [0x41] + LETTERS_AND_DIGITS[1..];
    FilterCons(0x41, LETTERS_AND_DIGITS[1..], keep);
    FilterKeepsAll(LETTERS_AND_DIGITS[1..], keep);
  }

  /** Only the last code unit of "ABCabc123" is in "X3Z". */
  lemma StripLast()
    ensures Filter(CodeUnits("ABCabc123"), NotIn(CodeUnits("X3Z"))) == CodeUnits("ABCabc12")
  {
    SpellLettersAndDigits();
    SpellLastRemoved();
    var keep := NotIn([0x58, 0x33, 0x5A]);
    assert LETTERS_AND_DIGITS == LETTERS_AND_DIGITS[..8] + [0x33];
    FilterAppend(LETTERS_AND_DIGITS[..8], [0x33], keep);
    FilterDropsAll([0x33], keep);
    FilterKeepsAll(LETTERS_AND_DIGITS[..8], keep);
  }

  /** "ABC abc 123" without its spaces is "ABCabc123". */
  lemma StripSpaces()
    ensures Filter(CodeUnits("ABC abc 123"), NotIn(CodeUnits(" "))) == CodeUnits("ABCabc123")
  {
    SpellLettersAndDigits();
    SpellSpacedLetters();
    var keep := NotIn([0x20]);
    var upper, lower, digits: JString := [0x41, 0x42, 0x43], [0x61, 0x62, 0x63], [0x31, 0x32, 0x33];
    DroppedBetween(upper + [0x20] + lower, digits, 0x20, keep);
    DroppedBetween(upper, lower, 0x20, keep);
    FilterAppend(upper + lower, digits, keep);
    FilterAppend(upper, lower, keep);
    FilterKeepsAll(upper, keep);
    FilterKeepsAll(lower, keep);
    FilterKeepsAll(digits, keep);
  }

  /** A code unit that is not kept splits the filtering in two. */
  lemma DroppedBetween(x: JString, y: JString, u: CodeUnit, keep: CodeUnit -> bool)
    requires !keep(u)
    ensures Filter(x + [u] + y, keep) == Filter(x, keep) + Filter(y, keep)
  {
    assert x + [u] + y == x + ([u] + y);
    FilterAppend(x, [u] + y, keep);
    FilterCons(u, y, keep);
  }

  lemma SpellSpacedLetters()
    ensures CodeUnits(" ") == [0x20]
    ensures CodeUnits("ABC abc 123")
         == [0x41, 0x42, 0x43] + [0x20] + [0x61, 0x62, 0x63] + [0x20] + [0x31, 0x32, 0x33]
  {
  }

  /** A null argument raises IllegalArgumentException, in either position. */
  method StripRejectsNull() {
    var r := Strip(Null, Ref(CodeUnits("123ABCabc")));
    assert r == Failure(IllegalArgumentException);
    r := Strip(Ref(CodeUnits("123ABCabc")), Null);
    assert r == Failure(IllegalArgumentException);
  }

  // ---------------------------------------------------------------------------------------
  // join (documented contract)

  lemma SpellNullText() ensures CodeUnits("(null)") == NULL_TEXT {}
  lemma SpellHalloNullDu()
    ensures CodeUnits("Hallo,(null),du") == CodeUnits("Hallo") + [COMMA] + NULL_TEXT + [COMMA] + CodeUnits("du")
  {
  }

  /** No elements raise IllegalArgumentException; a null array and a single element. */
  lemma JoinSmallCases()
    ensures Join(Ref([])) == Failure(IllegalArgumentException)
    ensures Join(Ref([Ref(CodeUnits("blub"))])) == Success(CodeUnits("blub"))
    ensures Join(Null) == Success(CodeUnits("(null)"))
  {
    SpellNullText();
  }

  /** "Hallo", null, "du" join to "Hallo,(null),du". */
  lemma JoinWithNullElement()
    ensures Join(Ref([Ref(CodeUnits("Hallo")), Null, Ref(CodeUnits("du"))])) == Success(CodeUnits("Hallo,(null),du"))
  {
    SpellHalloNullDu();
    var es := [Ref(CodeUnits("Hallo")), Null, Ref(CodeUnits("du"))];
    assert es[1..][1..] == [Ref(CodeUnits("du"))];
    assert JoinElements(es[1..]) == NULL_TEXT + [COMMA] + CodeUnits("du");
    assert JoinElements(es) == CodeUnits("Hallo") + [COMMA] + NULL_TEXT + [COMMA] + CodeUnits("du");
  }

  /** Null elements at both ends, as in the test with twenty elements, are rendered as "(null)"
      at both ends of the result. */
  lemma JoinWithNullEnds(middle: seq<Nullable<JString>>)
    requires |middle| > 0
    ensures Join(Ref([Null] + middle + [Null]))
         == Success(NULL_TEXT + [COMMA] + JoinElements(middle) + [COMMA] + NULL_TEXT)
  {
    JoinAppend([Null], middle);
    JoinAppend([Null] + middle, [Null]);
  }

  /** The body as written does not return what the documentation and the tests expect. */
  lemma JoinAsWrittenMissesSingleElement()
    ensures JoinAsWritten(Ref([Ref(CodeUnits("blub"))])) != Ref(CodeUnits("blub"))
  {
  }

  // ---------------------------------------------------------------------------------------
  // isSecure

  /** "123456abcdefABCDEF#%&" */
  const STRONG: JString := [0x31, 0x32, 0x33, 0x34, 0x35, 0x36, 0x61, 0x62, 0x63, 0x64, 0x65,
                            0x66, 0x41, 0x42, 0x43, 0x44, 0x45, 0x46, 0x23, 0x25, 0x26]

  /** "abcdefghijABCDEFGHIJ#%&" */
  const NO_DIGIT: JString := [0x61, 0x62, 0x63, 0x64, 0x65, 0x66, 0x67, 0x68, 0x69, 0x6A, 0x41,
                              0x42, 0x43, 0x44, 0x45, 0x46, 0x47, 0x48, 0x49, 0x4A, 0x23, 0x25, 0x26]

  /** "1234567890ABCDEFGHIJ#%&" */
  const NO_LOWER: JString := [0x31, 0x32, 0x33, 0x34, 0x35, 0x36, 0x37, 0x38, 0x39, 0x30, 0x41,
                              0x42, 0x43, 0x44, 0x45, 0x46, 0x47, 0x48, 0x49, 0x4A, 0x23, 0x25, 0x26]

  /** "1234567890abcdefghij#%&" */
  const NO_UPPER: JString := [0x31, 0x32, 0x33, 0x34, 0x35, 0x36, 0x37, 0x38, 0x39, 0x30, 0x61,
                              0x62, 0x63, 0x64, 0x65, 0x66, 0x67, 0x68, 0x69, 0x6A, 0x23, 0x25, 0x26]

  /** "abcdefghijABCDEFGHI123" */
  const NO_SPECIAL: JString := [0x61, 0x62, 0x63, 0x64, 0x65, 0x66, 0x67, 0x68, 0x69, 0x6A, 0x41,
                                0x42, 0x43, 0x44, 0x45, 0x46, 0x47, 0x48, 0x49, 0x31, 0x32, 0x33]

  /** "12abAB#%&&&&&&&&&&&&" */
  const NINE_DISTINCT: JString := [0x31, 0x32, 0x61, 0x62, 0x41, 0x42, 0x23, 0x25, 0x26, 0x26,
                                   0x26, 0x26, 0x26, 0x26, 0x26, 0x26, 0x26, 0x26, 0x26, 0x26]

  lemma SpellStrong() ensures CodeUnits("123456abcdefABCDEF#%&") == STRONG {}
  lemma SpellNoDigit() ensures CodeUnits("abcdefghijABCDEFGHIJ#%&") == NO_DIGIT {}
  lemma SpellNoLower() ensures CodeUnits("1234567890ABCDEFGHIJ#%&") == NO_LOWER {}
  lemma SpellNoUpper() ensures CodeUnits("1234567890abcdefghij#%&") == NO_UPPER {}
  lemma SpellNoSpecial() ensures CodeUnits("abcdefghijABCDEFGHI123") == NO_SPECIAL {}
  lemma SpellNineDistinct() ensures CodeUnits("12abAB#%&&&&&&&&&&&&") == NINE_DISTINCT {}

  /** Under a sound classifier, ASCII code units have their table category. */
  lemma AsciiCategories(k: CharClassifier, s: JString)
    requires Sound(k)
    requires forall i | 0 <= i < |s| :: s[i] < 0x80
    ensures forall i | 0 <= i < |s| :: k.typeOf(s[i]) == AsciiCategory(s[i])
  {
  }

  /** "123456abcdefABCDEF#%&" is secure. */
  lemma SecurePassword(k: CharClassifier)
    requires Sound(k)
    ensures Secure(k, Ref(CodeUnits("123456abcdefABCDEF#%&")))
  {
    SpellStrong();
    StrongHasTenDistinct();
    StrongHasEveryCategory(k);
  }

  /** '1', 'a', 'A' and '#' are digit, lower-case, upper-case and other. */
  lemma StrongHasEveryCategory(k: CharClassifier)
    requires Sound(k)
    ensures HasCategory(k, Distinct(STRONG), DecimalDigit) && HasCategory(k, Distinct(STRONG), Lowercase)
    ensures HasCategory(k, Distinct(STRONG), Uppercase) && HasSpecial(k, Distinct(STRONG))
  {
    StrongSamples();
    assert k.typeOf(0x31) == DecimalDigit;
    assert k.typeOf(0x61) == Lowercase;
    assert k.typeOf(0x41) == Uppercase;
    assert k.typeOf(0x23) == Other;
  }

  /** '1', 'a', 'A' and '#' are among its code units. */
  lemma StrongSamples()
    ensures 0x31 in Distinct(STRONG) && 0x61 in Distinct(STRONG)
    ensures 0x41 in Distinct(STRONG) && 0x23 in Distinct(STRONG)
  {
    var s := STRONG;
    DistinctMembership(s, s[0]);
    DistinctMembership(s, s[6]);
    DistinctMembership(s, s[12]);
    DistinctMembership(s, s[18]);
  }

  /** Its first ten code units are already ten distinct ones. */
  lemma StrongHasTenDistinct()
    ensures |Distinct(STRONG)| >= 10
  {
    var s := STRONG;
    var ten := {s[0], s[1], s[2], s[3], s[4], s[5], s[6], s[7], s[8], s[9]};
    assert |ten| == 10;
    forall u | u in ten ensures u in Distinct(s) {
      DistinctMembership(s, u);
    }
    SubsetCardinality(ten, Distinct(s));
  }

  /** Nineteen code units are too short, whatever they are. */
  lemma ShortPassword(k: CharClassifier)
    ensures !Secure(k, Ref(CodeUnits("0123456789abcABC#%&")))
  {
    ShortPasswordsAreInsecure(k, Ref(CodeUnits("0123456789abcABC#%&")));
  }

  /** Under a sound classifier, ASCII code units none of which has category `c` make an
      insecure password. */
  lemma AsciiWithoutCategory(k: CharClassifier, s: JString, c: Category)
    requires Sound(k) && (c == DecimalDigit || c == Uppercase || c == Lowercase)
    requires forall i | 0 <= i < |s| :: s[i] < 0x80 && AsciiCategory(s[i]) != c
    ensures !Secure(k, Ref(s))
  {
    MissingCategoryIsInsecure(k, s, c);
  }

  /** Under a sound classifier, ASCII letters and digits alone make an insecure password. */
  lemma AsciiWithoutSpecial(k: CharClassifier, s: JString)
    requires Sound(k)
    requires forall i | 0 <= i < |s| :: s[i] < 0x80 && !IsSpecial(AsciiCategory(s[i]))
    ensures !Secure(k, Ref(s))
  {
    MissingSpecialIsInsecure(k, s);
  }

  /** What each of the four passwords lacks, by the ASCII table. */
  lemma LacksDigit()
    ensures forall i | 0 <= i < |NO_DIGIT| :: NO_DIGIT[i] < 0x80 && AsciiCategory(NO_DIGIT[i]) != DecimalDigit
  {
  }
  lemma LacksLowercase()
    ensures forall i | 0 <= i < |NO_LOWER| :: NO_LOWER[i] < 0x80 && AsciiCategory(NO_LOWER[i]) != Lowercase
  {
  }
  lemma LacksUppercase()
    ensures forall i | 0 <= i < |NO_UPPER| :: NO_UPPER[i] < 0x80 && AsciiCategory(NO_UPPER[i]) != Uppercase
  {
  }
  lemma LacksSpecial()
    ensures forall i | 0 <= i < |NO_SPECIAL| :: NO_SPECIAL[i] < 0x80 && !IsSpecial(AsciiCategory(NO_SPECIAL[i]))
  {
  }

  /** Without a digit the password is insecure. */
  lemma PasswordWithoutDigit(k: CharClassifier)
    requires Sound(k)
    ensures !Secure(k, Ref(CodeUnits("abcdefghijABCDEFGHIJ#%&")))
  {
    SpellNoDigit();
    LacksDigit();
    AsciiWithoutCategory(k, NO_DIGIT, DecimalDigit);
  }

  /** Without a lower-case letter the password is insecure. */
  lemma PasswordWithoutLowercase(k: CharClassifier)
    requires Sound(k)
    ensures !Secure(k, Ref(CodeUnits("1234567890ABCDEFGHIJ#%&")))
  {
    SpellNoLower();
    LacksLowercase();
    AsciiWithoutCategory(k, NO_LOWER, Lowercase);
  }

  /** Without an upper-case letter the password is insecure. */
  lemma PasswordWithoutUppercase(k: CharClassifier)
    requires Sound(k)
    ensures !Secure(k, Ref(CodeUnits("1234567890abcdefghij#%&")))
  {
    SpellNoUpper();
    LacksUppercase();
    AsciiWithoutCategory(k, NO_UPPER, Uppercase);
  }

  /** Without a special character the password is insecure. */
  lemma PasswordWithoutSpecial(k: CharClassifier)
    requires Sound(k)
    ensures !Secure(k, Ref(CodeUnits("abcdefghijABCDEFGHI123")))
  {
    SpellNoSpecial();
    LacksSpecial();
    AsciiWithoutSpecial(k, NO_SPECIAL);
  }

  /** Twenty code units but only nine distinct ones are insecure. */
  lemma PasswordWithNineDistinct(k: CharClassifier)
    ensures !Secure(k, Ref(CodeUnits("12abAB#%&&&&&&&&&&&&")))
  {
    SpellNineDistinct();
    var s := NINE_DISTINCT;
    var nine: set<CodeUnit> := {0x31, 0x32, 0x61, 0x62, 0x41, 0x42, 0x23, 0x25, 0x26};
    forall u | u in Distinct(s) ensures u in nine {
      DistinctMembership(s, u);
    }
    SubsetCardinality(Distinct(s), nine);
    FewDistinctIsInsecure(k, s);
  }

  // ---------------------------------------------------------------------------------------
  // isValidIsbn13

  /** "9780321356680" */
  const ISBN13: JString := [0x39, 0x37, 0x38, 0x30, 0x33, 0x32, 0x31, 0x33, 0x35, 0x36, 0x36, 0x38, 0x30]

  lemma SpellIsbn13() ensures CodeUnits("9780321356680") == ISBN13 {}
  lemma SpellLeadingSpace() ensures CodeUnits(" 9780321356680") == [] + [0x20] + ISBN13 {}
  lemma SpellTrailingSpace() ensures CodeUnits("9780321356680 ") == ISBN13 + [0x20] + [] {}
  lemma SpellLeadingHyphen() ensures CodeUnits("-9780321356680") == [] + [0x2D] + ISBN13 {}
  lemma SpellTrailingHyphen() ensures CodeUnits("9780321356680-") == ISBN13 + [0x2D] + [] {}
  lemma SpellWithLetter() ensures CodeUnits("978A321356680") == ISBN13[3 := 0x41] {}
  lemma SpellWithPercent() ensures CodeUnits("978%321356680") == ISBN13[3 := 0x25] {}
  lemma SpellTwelveDigits() ensures CodeUnits("978032135668") == ISBN13[..12] {}
  lemma SpellFourteenDigits() ensures CodeUnits("97803213566801") == ISBN13 + [0x31] {}

  /** Under a sound classifier, ASCII digits are significant decimal digits of their value. */
  lemma AsciiDigitsAreKept(k: CharClassifier, s: JString)
    requires Sound(k)
    requires forall i | 0 <= i < |s| :: 0x30 <= s[i] <= 0x39
    ensures Filter(s, Significant(k)) == s
    ensures forall i | 0 <= i < |s| :: k.typeOf(s[i]) == DecimalDigit
    ensures forall i | 0 <= i < |s| :: Values(k, s)[i] == s[i] as int - 0x30
  {
    forall i | 0 <= i < |s|
      ensures k.typeOf(s[i]) == DecimalDigit && k.numericValue(s[i]) == s[i] as int - 0x30
    {
      assert s[i] < 0x80;
    }
    FilterKeepsAll(s, Significant(k));
  }

  /** "9780321356680" is a valid ISBN-13. */
  lemma Isbn13Accepted(k: CharClassifier)
    requires Sound(k)
    ensures ValidIsbn13(k, Ref(CodeUnits("9780321356680")))
  {
    SpellIsbn13();
    Isbn13Checks(k);
  }

  /** The same, on the code units: 9+8+3+1+5+6 + 3*(7+0+2+3+6+8) = 110, so the check digit is 0. */
  lemma Isbn13Checks(k: CharClassifier)
    requires Sound(k)
    ensures ValidIsbn13(k, Ref(ISBN13))
  {
    AsciiDigitsAreKept(k, ISBN13);
  }

  /** A leading or trailing space is ignored. */
  lemma Isbn13WithSpaceAtTheEnds(k: CharClassifier)
    requires Sound(k)
    ensures ValidIsbn13(k, Ref(CodeUnits(" 9780321356680")))
    ensures ValidIsbn13(k, Ref(CodeUnits("9780321356680 ")))
  {
    SpellLeadingSpace();
    SpellTrailingSpace();
    Isbn13Checks(k);
    SeparatorsAreIgnored(k, [], ISBN13, 0x20);
    SeparatorsAreIgnored(k, ISBN13, [], 0x20);
    assert [] + ISBN13 == ISBN13 + [] == ISBN13;
  }

  /** A leading or trailing hyphen is ignored. */
  lemma Isbn13WithHyphenAtTheEnds(k: CharClassifier)
    requires Sound(k)
    ensures ValidIsbn13(k, Ref(CodeUnits("-9780321356680")))
    ensures ValidIsbn13(k, Ref(CodeUnits("9780321356680-")))
  {
    SpellLeadingHyphen();
    SpellTrailingHyphen();
    Isbn13Checks(k);
    SeparatorsAreIgnored(k, [], ISBN13, 0x2D);
    SeparatorsAreIgnored(k, ISBN13, [], 0x2D);
    assert [] + ISBN13 == ISBN13 + [] == ISBN13;
  }

  /** "9 7 8 0 3 2 1 3 5 6 6 8 0" and "9-7-8-0-3-2-1-3-5-6-6-8-0": a space, or a hyphen, between
      every two digits is ignored. */
  lemma Isbn13WithSeparatorsEverywhere(k: CharClassifier)
    requires Sound(k)
    ensures ValidIsbn13(k, Ref(CodeUnits("9 7 8 0 3 2 1 3 5 6 6 8 0")))
    ensures ValidIsbn13(k, Ref(CodeUnits("9-7-8-0-3-2-1-3-5-6-6-8-0")))
  {
    SpacedIsbn13IsInterleaved();
    InterleavedIsbn13IsValid(k);
  }

  /** ISBN13 with a space, or a hyphen, between every two digits is valid. */
  lemma InterleavedIsbn13IsValid(k: CharClassifier)
    requires Sound(k)
    ensures ValidIsbn13(k, Ref(Interleave(ISBN13, 0x20)))
    ensures ValidIsbn13(k, Ref(Interleave(ISBN13, 0x2D)))
  {
    Isbn13Checks(k);
    SeparatorsEverywhereAreIgnored(k, ISBN13, 0x20);
    SeparatorsEverywhereAreIgnored(k, ISBN13, 0x2D);
  }

  /** The two literals are ISBN13 interleaved with ' ' and with '-'. */
  lemma SpacedIsbn13IsInterleaved()
    ensures CodeUnits("9 7 8 0 3 2 1 3 5 6 6 8 0") == Interleave(ISBN13, 0x20)
    ensures CodeUnits("9-7-8-0-3-2-1-3-5-6-6-8-0") == Interleave(ISBN13, 0x2D)
  {
    SpellSpacedIsbn13();
    SpellDashedIsbn13();
    InterleavedIsbn13(0x20);
    InterleavedIsbn13(0x2D);
  }

  /** ISBN13 with `sep` between every two digits, written out. */
  function SeparatedIsbn13(sep: CodeUnit): JString {
    [0x39, sep, 0x37, sep, 0x38, sep, 0x30, sep, 0x33, sep, 0x32, sep,
     0x31, sep, 0x33, sep, 0x35, sep, 0x36, sep, 0x36, sep, 0x38, sep, 0x30]
  }

  lemma SpellSpacedIsbn13()
    ensures CodeUnits("9 7 8 0 3 2 1 3 5 6 6 8 0") == SeparatedIsbn13(0x20)
  {
  }

  lemma SpellDashedIsbn13()
    ensures CodeUnits("9-7-8-0-3-2-1-3-5-6-6-8-0") == SeparatedIsbn13(0x2D)
  {
  }

  /** Interleaving ISBN13 gives the written-out form. */
  lemma InterleavedIsbn13(sep: CodeUnit)
    ensures Interleave(ISBN13, sep) == SeparatedIsbn13(sep)
  {
    InterleaveAt(ISBN13, sep, 0);
    InterleaveAt(ISBN13, sep, 1);
    InterleaveAt(ISBN13, sep, 2);
    InterleaveAt(ISBN13, sep, 3);
    InterleaveAt(ISBN13, sep, 4);
    InterleaveAt(ISBN13, sep, 5);
    InterleaveAt(ISBN13, sep, 6);
    InterleaveAt(ISBN13, sep, 7);
    InterleaveAt(ISBN13, sep, 8);
    InterleaveAt(ISBN13, sep, 9);
    InterleaveAt(ISBN13, sep, 10);
    InterleaveAt(ISBN13, sep, 11);
    InterleaveAt(ISBN13, sep, 12);
    InterleaveAt(ISBN13, sep, 13);
    InterleaveAt(ISBN13, sep, 14);
    InterleaveAt(ISBN13, sep, 15);
    InterleaveAt(ISBN13, sep, 16);
    InterleaveAt(ISBN13, sep, 17);
    InterleaveAt(ISBN13, sep, 18);
    InterleaveAt(ISBN13, sep, 19);
    InterleaveAt(ISBN13, sep, 20);
    InterleaveAt(ISBN13, sep, 21);
    InterleaveAt(ISBN13, sep, 22);
    InterleaveAt(ISBN13, sep, 23);
    InterleaveAt(ISBN13, sep, 24);
  }


  /** After "978032135668", each of the final digits 1 to 9 is rejected. */
  lemma Isbn13WrongCheckDigit(k: CharClassifier, c: CodeUnit)
    requires Sound(k)
    requires 0x31 <= c <= 0x39
    ensures !ValidIsbn13(k, Ref(CodeUnits("978032135668") + [c]))
  {
    SpellTwelveDigits();
    Isbn13Checks(k);
    assert ISBN13[..12] + [0x30] == ISBN13;
    if ValidIsbn13(k, Ref(ISBN13[..12] + [c])) {
      CheckDigitIsUnique(k, ISBN13[..12], c, 0x30);
    }
  }

  /** Null, the empty string, twelve digits and fourteen digits are rejected. */
  lemma Isbn13WrongLength(k: CharClassifier)
    requires Sound(k)
    ensures !ValidIsbn13(k, Null)
    ensures !ValidIsbn13(k, Ref(CodeUnits("")))
    ensures !ValidIsbn13(k, Ref(CodeUnits("978032135668")))
    ensures !ValidIsbn13(k, Ref(CodeUnits("97803213566801")))
  {
    SpellTwelveDigits();
    SpellFourteenDigits();
    AsciiDigitsAreKept(k, ISBN13[..12]);
    AsciiDigitsAreKept(k, ISBN13 + [0x31]);
  }

  /** A letter among the digits is rejected. */
  lemma Isbn13WithLetter(k: CharClassifier)
    requires Sound(k)
    ensures !ValidIsbn13(k, Ref(CodeUnits("978A321356680")))
  {
    SpellWithLetter();
    AsciiCategories(k, ISBN13[3 := 0x41]);
    FilterKeepsAll(ISBN13[3 := 0x41], Significant(k));
  }

  /** A '%' among the digits is rejected. */
  lemma Isbn13WithPercent(k: CharClassifier)
    requires Sound(k)
    ensures !ValidIsbn13(k, Ref(CodeUnits("978%321356680")))
  {
    SpellWithPercent();
    AsciiCategories(k, ISBN13[3 := 0x25]);
    FilterKeepsAll(ISBN13[3 := 0x25], Significant(k));
  }

  // ---------------------------------------------------------------------------------------
  // isValidISBN10 (documented contract)

  /** "3866801920" */
  const ISBN10: JString := [0x33, 0x38, 0x36, 0x36, 0x38, 0x30, 0x31, 0x39, 0x32, 0x30]

  /** Its groups as the tests write them: "3", "86680", "192" and the check digit "0". */
  const GROUP1: JString := [0x33]
  const GROUP2: JString := [0x38, 0x36, 0x36, 0x38, 0x30]
  const GROUP3: JString := [0x31, 0x39, 0x32]

  /** The code unit '-'. */
  const HYPHEN: CodeUnit := 0x2D

  /** Four groups joined by hyphens, as in "3-86680-192-0". */
  function Hyphenated(a: JString, b: JString, c: JString, e: JString): JString {
    a + [HYPHEN] + b + [HYPHEN] + c + [HYPHEN] + e
  }

  /** The three hyphens are removed with the other separators. */
  lemma HyphensAreDropped(k: CharClassifier, a: JString, b: JString, c: JString, e: JString)
    requires k.typeOf(HYPHEN) == DashPunctuation
    ensures Filter(Hyphenated(a, b, c, e), Significant(k)) == Filter(a + b + c + e, Significant(k))
  {
    var keep := Significant(k);
    SeparatorSplits(k, a + [HYPHEN] + b + [HYPHEN] + c, e, HYPHEN);
    SeparatorSplits(k, a + [HYPHEN] + b, c, HYPHEN);
    SeparatorSplits(k, a, b, HYPHEN);
    FilterAppend(a + b + c, e, keep);
    FilterAppend(a + b, c, keep);
    FilterAppend(a, b, keep);
  }

  /** Filtering across a separator filters the two sides. */
  lemma SeparatorSplits(k: CharClassifier, x: JString, y: JString, sep: CodeUnit)
    requires k.typeOf(sep) == SpaceSeparator || k.typeOf(sep) == DashPunctuation
    ensures Filter(x + [sep] + y, Significant(k)) == Filter(x, Significant(k)) + Filter(y, Significant(k))
  {
    SeparatorIsDropped(k, x, y, sep);
    FilterAppend(x, y, Significant(k));
  }

  lemma SpellIsbn10()
    ensures CodeUnits("3866801920") == ISBN10
    ensures GROUP1 + GROUP2 + GROUP3 + [0x30] == ISBN10
  {
  }
  lemma SpellHyphenatedIsbn10()
    ensures CodeUnits("3-86680-192-0") == Hyphenated(GROUP1, GROUP2, GROUP3, [0x30])
  {
  }
  lemma SpellElevenDigits()
    ensures CodeUnits("3-86680-192-08") == Hyphenated(GROUP1, GROUP2, GROUP3, [0x30, 0x38])
    ensures GROUP1 + GROUP2 + GROUP3 + [0x30, 0x38] == ISBN10 + [0x38]
  {
  }
  lemma SpellNineDigits()
    ensures CodeUnits("3-86680-192-") == Hyphenated(GROUP1, GROUP2, GROUP3, [])
    ensures GROUP1 + GROUP2 + GROUP3 + [] == ISBN10[..9]
  {
  }
  lemma SpellWrongParity()
    ensures CodeUnits("3-86680-192-9") == Hyphenated(GROUP1, GROUP2, GROUP3, [0x39])
    ensures GROUP1 + GROUP2 + GROUP3 + [0x39] == ISBN10[9 := 0x39]
  {
  }
  lemma SpellIsbn10WithLetter()
    ensures CodeUnits("3-8a680-192-0") == Hyphenated(GROUP1, GROUP2[1 := 0x61], GROUP3, [0x30])
    ensures GROUP1 + GROUP2[1 := 0x61] + GROUP3 + [0x30] == ISBN10[2 := 0x61]
  {
  }

  /** Ten ASCII digits satisfy the documented rule exactly when their weighted sum is divisible by 11. */
  lemma Isbn10OfAsciiDigits(k: CharClassifier, d: JString)
    requires Sound(k)
    requires |d| == 10 && forall i | 0 <= i < 10 :: 0x30 <= d[i] <= 0x39
    ensures ValidIsbn10(k, Ref(d)) <==> Isbn10Sum(Values(k, d)) % 11 == 0
  {
    AsciiDigitsAreKept(k, d);
    assert Values(k, d[..9]) + [CheckSymbolValue(k, d[9])] == Values(k, d);
  }

  /** "3866801920" satisfies the documented ISBN-10 rule: 10*3 + 9*8 + ... + 1*0 = 275 = 25 * 11. */
  lemma Isbn10Accepted(k: CharClassifier)
    requires Sound(k)
    ensures ValidIsbn10(k, Ref(CodeUnits("3866801920")))
  {
    SpellIsbn10();
    Isbn10Checks(k);
  }

  /** The same, on the code units. */
  lemma Isbn10Checks(k: CharClassifier)
    requires Sound(k)
    ensures ValidIsbn10(k, Ref(ISBN10))
  {
    Isbn10OfAsciiDigits(k, ISBN10);
    AsciiDigitsAreKept(k, ISBN10);
    assert Isbn10Sum(Values(k, ISBN10)) == 275;
  }

  /** "3-86680-192-0" and "3 - 8 6 6 8 0 - 1 9 2 - 0" (that string with a space between every
      two code units) satisfy the documented rule, and the Java body rejects the first. */
  lemma Isbn10WithSeparators(k: CharClassifier)
    requires Sound(k)
    ensures ValidIsbn10(k, Ref(CodeUnits("3-86680-192-0")))
    ensures ValidIsbn10(k, Ref(CodeUnits("3 - 8 6 6 8 0 - 1 9 2 - 0")))
    ensures !IsValidIsbn10AsWritten(Ref(CodeUnits("3-86680-192-0")))
  {
    SpellHyphenatedIsbn10();
    SpacedIsbn10IsInterleaved();
    HyphenatedIsbn10IsValid(k);
  }

  /** "3-86680-192-0", and that string with a space between every two code units, satisfy the
      documented rule. */
  lemma HyphenatedIsbn10IsValid(k: CharClassifier)
    requires Sound(k)
    ensures ValidIsbn10(k, Ref(Hyphenated(GROUP1, GROUP2, GROUP3, [0x30])))
    ensures ValidIsbn10(k, Ref(Interleave(Hyphenated(GROUP1, GROUP2, GROUP3, [0x30]), 0x20)))
  {
    SpellIsbn10();
    Isbn10Checks(k);
    HyphensAreDropped(k, GROUP1, GROUP2, GROUP3, [0x30]);
    SeparatorsEverywhereAreDropped(k, Hyphenated(GROUP1, GROUP2, GROUP3, [0x30]), 0x20);
  }

  /** "3-86680-192-0" */
  const HYPHENATED_ISBN10: JString := [0x33, 0x2D, 0x38, 0x36, 0x36, 0x38, 0x30, 0x2D, 0x31, 0x39, 0x32, 0x2D, 0x30]

  /** "3-86680-192-0" with `sep` between every two code units, written out. */
  function SeparatedIsbn10(sep: CodeUnit): JString {
    [0x33, sep, 0x2D, sep, 0x38, sep, 0x36, sep, 0x36, sep, 0x38, sep, 0x30,
     sep, 0x2D, sep, 0x31, sep, 0x39, sep, 0x32, sep, 0x2D, sep, 0x30]
  }

  /** The spaced literal is the hyphenated ISBN-10 interleaved with ' '. */
  lemma SpacedIsbn10IsInterleaved()
    ensures CodeUnits("3 - 8 6 6 8 0 - 1 9 2 - 0") == Interleave(Hyphenated(GROUP1, GROUP2, GROUP3, [0x30]), 0x20)
  {
    SpellSpacedIsbn10();
    SpellHyphenatedGroups();
    InterleavedIsbn10(0x20);
  }

  lemma SpellSpacedIsbn10() ensures CodeUnits("3 - 8 6 6 8 0 - 1 9 2 - 0") == SeparatedIsbn10(0x20) {}
  lemma SpellHyphenatedGroups() ensures Hyphenated(GROUP1, GROUP2, GROUP3, [0x30]) == HYPHENATED_ISBN10 {}

  /** Interleaving the hyphenated ISBN-10 gives the written-out form. */
  lemma InterleavedIsbn10(sep: CodeUnit)
    ensures Interleave(HYPHENATED_ISBN10, sep) == SeparatedIsbn10(sep)
  {
    InterleaveAt(HYPHENATED_ISBN10, sep, 0);
    InterleaveAt(HYPHENATED_ISBN10, sep, 1);
    InterleaveAt(HYPHENATED_ISBN10, sep, 2);
    InterleaveAt(HYPHENATED_ISBN10, sep, 3);
    InterleaveAt(HYPHENATED_ISBN10, sep, 4);
    InterleaveAt(HYPHENATED_ISBN10, sep, 5);
    InterleaveAt(HYPHENATED_ISBN10, sep, 6);
    InterleaveAt(HYPHENATED_ISBN10, sep, 7);
    InterleaveAt(HYPHENATED_ISBN10, sep, 8);
    InterleaveAt(HYPHENATED_ISBN10, sep, 9);
    InterleaveAt(HYPHENATED_ISBN10, sep, 10);
    InterleaveAt(HYPHENATED_ISBN10, sep, 11);
    InterleaveAt(HYPHENATED_ISBN10, sep, 12);
    InterleaveAt(HYPHENATED_ISBN10, sep, 13);
    InterleaveAt(HYPHENATED_ISBN10, sep, 14);
    InterleaveAt(HYPHENATED_ISBN10, sep, 15);
    InterleaveAt(HYPHENATED_ISBN10, sep, 16);
    InterleaveAt(HYPHENATED_ISBN10, sep, 17);
    InterleaveAt(HYPHENATED_ISBN10, sep, 18);
    InterleaveAt(HYPHENATED_ISBN10, sep, 19);
    InterleaveAt(HYPHENATED_ISBN10, sep, 20);
    InterleaveAt(HYPHENATED_ISBN10, sep, 21);
    InterleaveAt(HYPHENATED_ISBN10, sep, 22);
    InterleaveAt(HYPHENATED_ISBN10, sep, 23);
    InterleaveAt(HYPHENATED_ISBN10, sep, 24);
  }

  /** Null and eleven digits are rejected by the documented rule. */
  lemma Isbn10TooLong(k: CharClassifier)
    requires Sound(k)
    ensures !ValidIsbn10(k, Null)
    ensures !ValidIsbn10(k, Ref(CodeUnits("3-86680-192-08")))
  {
    SpellElevenDigits();
    HyphensAreDropped(k, GROUP1, GROUP2, GROUP3, [0x30, 0x38]);
    AsciiDigitsAreKept(k, ISBN10 + [0x38]);
  }

  /** Nine digits are rejected by the documented rule. */
  lemma Isbn10TooShort(k: CharClassifier)
    requires Sound(k)
    ensures !ValidIsbn10(k, Ref(CodeUnits("3-86680-192-")))
  {
    SpellNineDigits();
    HyphensAreDropped(k, GROUP1, GROUP2, GROUP3, []);
    AsciiDigitsAreKept(k, ISBN10[..9]);
  }

  /** "3-86680-192-9": the weighted sum is 284, which 11 does not divide. */
  lemma Isbn10WrongParity(k: CharClassifier)
    requires Sound(k)
    ensures !ValidIsbn10(k, Ref(CodeUnits("3-86680-192-9")))
  {
    SpellWrongParity();
    HyphensAreDropped(k, GROUP1, GROUP2, GROUP3, [0x39]);
    WrongParityChecks(k);
  }

  /** The same, on the code units. */
  lemma WrongParityChecks(k: CharClassifier)
    requires Sound(k)
    ensures !ValidIsbn10(k, Ref(ISBN10[9 := 0x39]))
  {
    var wrong := ISBN10[9 := 0x39];
    Isbn10OfAsciiDigits(k, wrong);
    AsciiDigitsAreKept(k, wrong);
    assert Isbn10Sum(Values(k, wrong)) == 284;
  }

  /** "3-8a680-192-0": a letter among the first nine digits is rejected. */
  lemma Isbn10WithLetter(k: CharClassifier)
    requires Sound(k)
    ensures !ValidIsbn10(k, Ref(CodeUnits("3-8a680-192-0")))
  {
    SpellIsbn10WithLetter();
    var wrong := ISBN10[2 := 0x61];
    HyphensAreDropped(k, GROUP1, GROUP2[1 := 0x61], GROUP3, [0x30]);
    AsciiCategories(k, wrong);
    FilterKeepsAll(wrong, Significant(k));
  }
}
