# StringUtils in Dafny

A model of `edu.hm.hafner.util.StringUtils`, a final Java class of static string helpers,
and proofs of what it promises:

- `isBlank`, the null-or-empty test;
- `strip`, which removes every character of one string from another;
- `isSecure`, the password-strength rule;
- `isValidIsbn13` and its private helper `removeBlanksAndHyphens`;
- the documented contract of `join`, whose Java body is still a stub that returns `null`;
- the documented contract of `isValidISBN10`, whose Java body is `return false`.

Files:

- `java_lang.dfy` (module `JavaLang`): the Java platform the class relies on.
  - A `String` is its sequence of UTF-16 code units (`CodeUnit`, 0..0xFFFF), as `toCharArray` yields them.
  - `null` is `Nullable.Null`.
  - A thrown `IllegalArgumentException` is `Result.Failure`.
  - Java's truncating `%` is `JavaRem`.
  - `Character.getType` and `Character.getNumericValue` are a `CharClassifier` passed as a parameter.
    The ghost predicate `Sound` states what the model assumes of them:
    - a decimal digit has a numeric value in 0..9;
    - the ASCII code units have their Unicode categories;
    - '0'..'9' have the values 0..9.
    `AsciiOnly` shows that `Sound` can be met.
- `string_utils.dfy` (module `StringUtils`): the operations and their properties.
  - `strip` and `removeBlanksAndHyphens` are methods with the source's builder loop.
    Each is proved against one order-preserving `Filter` function.
  - `isSecure` is a method with the source's two loops: one fills the set of distinct code units, one raises the four category flags.
    It is proved against the ghost predicate `Secure`.
  - `isValidIsbn13` is a method that fills an `int[13]` array with an early return.
    It is proved against the ghost predicate `ValidIsbn13`.
  - The documented `join` is a pure function over a sequence of nullable strings.
- `string_utils_examples.dfy` (module `StringUtilsExamples`): the assertions of `StringUtilsTest`, restated as lemmas over the model.

The check digit follows the code at `StringUtils.java:178-179`:

- weight 1 at indices 0, 2, …, 10;
- weight 3 at indices 1, 3, …, 11;
- index 12 is compared with the result.

The Javadoc formula at `StringUtils.java:149` swaps the two parities and adds z12 to the sum. The model follows the code. `CheckDigitIsIsoRule` proves that the code's formula is the ISBN-13 rule of ISO 2108: the weighted sum of all thirteen digits is a multiple of 10.

## Model

| member | source | states |
|---|---|---|
| JavaLang.JavaRem | src/main/java/edu/hm/hafner/util/StringUtils.java:178-179 | Java's `%` for a positive divisor: equal to Dafny's `%` on non-negative operands, strictly inside (-b, b), carrying the sign of the dividend, and differing from the dividend by a multiple of b (the identity of section 15.17.3 of the Java Language Specification), which pins the result down for negative dividends too |
| JavaLang.AsciiOnly | src/main/java/edu/hm/hafner/util/StringUtils.java:125-134 | a classifier meeting `Sound` exists, so the assumptions about `Character.getType` and `getNumericValue` are consistent |
| JavaLang.CodeUnits | src/main/java/edu/hm/hafner/util/StringUtils.java:80 | a string of Basic Multilingual Plane characters has one code unit per character, with the character's value |
| StringUtils.IsBlank | src/main/java/edu/hm/hafner/util/StringUtils.java:30-32 | blank exactly when the value is null or has no code unit |
| StringUtils.Filter | src/main/java/edu/hm/hafner/util/StringUtils.java:78-86 | the builder's result is never longer than the input, and every code unit in it passed the test |
| StringUtils.FilterAppend | src/main/java/edu/hm/hafner/util/StringUtils.java:78-86 | filtering a concatenation is the concatenation of the filtered parts |
| StringUtils.FilterCons | src/main/java/edu/hm/hafner/util/StringUtils.java:78-86 | filtering a string with one code unit in front: that unit survives exactly when it passes the test |
| StringUtils.FilterMembership | src/main/java/edu/hm/hafner/util/StringUtils.java:78-86 | a code unit is in the result if and only if it is in the input and passes the test |
| StringUtils.FilterCounts | src/main/java/edu/hm/hafner/util/StringUtils.java:78-86 | each kept code unit keeps its number of occurrences; every other one occurs zero times |
| StringUtils.FilterKeepsAll | src/main/java/edu/hm/hafner/util/StringUtils.java:78-86 | input whose every code unit passes comes back unchanged |
| StringUtils.FilterDropsAll | src/main/java/edu/hm/hafner/util/StringUtils.java:78-86 | input none of whose code units passes becomes empty |
| StringUtils.FilterIdempotent | src/main/java/edu/hm/hafner/util/StringUtils.java:78-86 | filtering twice with the same test equals filtering once |
| StringUtils.NotInIsNotContained | src/main/java/edu/hm/hafner/util/StringUtils.java:81 | strip's test `NotIn` keeps a code unit exactly when String.contains does not find it, as a one-unit string, in the removal string |
| StringUtils.ContainsOne | src/main/java/edu/hm/hafner/util/StringUtils.java:81 | a one-unit string occurs in a string if and only if that code unit is one of its code units |
| StringUtils.Strip | src/main/java/edu/hm/hafner/util/StringUtils.java:72-87 | fails, with IllegalArgumentException, exactly when either argument is null; otherwise returns the input's code units that do not occur in `toBeRemoved`, in their original order |
| StringUtils.StripCharacterisation | src/main/java/edu/hm/hafner/util/StringUtils.java:78-86 | in the stripped string each code unit outside `toBeRemoved` occurs as often as in the input, none of `toBeRemoved` occurs, a code unit is present if and only if it is in the input and not to be removed, and the result is never longer |
| StringUtils.StripAppend | src/main/java/edu/hm/hafner/util/StringUtils.java:78-86 | stripping a concatenation strips each part independently |
| StringUtils.StripIdempotent | src/main/java/edu/hm/hafner/util/StringUtils.java:78-86 | a second strip with the same removal string changes nothing |
| StringUtils.StripNothing | src/main/java/edu/hm/hafner/util/StringUtils.java:78-86 | stripping with an empty removal string returns the input unchanged |
| StringUtils.StripSelf | src/main/java/edu/hm/hafner/util/StringUtils.java:78-86 | stripping a string by itself leaves the empty string |
| StringUtils.StripToBlank | src/main/java/edu/hm/hafner/util/StringUtils.java:78-86 | the stripped string is blank if and only if every code unit of the input is to be removed |
| StringUtils.Distinct | src/main/java/edu/hm/hafner/util/StringUtils.java:108-112 | the set of distinct code units is never larger than the string is long |
| StringUtils.DistinctMembership | src/main/java/edu/hm/hafner/util/StringUtils.java:108-112 | a code unit is in the HashSet if and only if it occurs in the password |
| StringUtils.DistinctSnoc | src/main/java/edu/hm/hafner/util/StringUtils.java:110-112 | adding one more code unit of the password adds exactly that unit to the set |
| StringUtils.IsSpecial | src/main/java/edu/hm/hafner/util/StringUtils.java:135-137 | the `default` branch takes exactly the categories SPACE_SEPARATOR, DASH_PUNCTUATION and every other category outside the three named cases |
| StringUtils.IsSecure | src/main/java/edu/hm/hafner/util/StringUtils.java:101-142 | true if and only if the password is non-null, has at least 20 code units and at least 10 distinct ones, and among the distinct ones are a decimal digit, an upper-case letter, a lower-case letter and one of any other category |
| StringUtils.CollectCharacters | src/main/java/edu/hm/hafner/util/StringUtils.java:108-112 | the filled HashSet is exactly the set of distinct code units of the password |
| StringUtils.ClassifyCharacters | src/main/java/edu/hm/hafner/util/StringUtils.java:119-139 | each of the four flags ends up true if and only if some code unit of the set has that flag's category; the `default` flag stands for every category other than the three named cases |
| StringUtils.VisitOne | src/main/java/edu/hm/hafner/util/StringUtils.java:124-139 | visiting one more code unit raises a flag exactly when that unit belongs to the flag's category, and leaves it as it was otherwise |
| StringUtils.VisitOneCategory | src/main/java/edu/hm/hafner/util/StringUtils.java:124-134 | the same for one named category |
| StringUtils.ShortPasswordsAreInsecure | src/main/java/edu/hm/hafner/util/StringUtils.java:103-105 | null and any password shorter than 20 code units are insecure, whatever they contain |
| StringUtils.FewDistinctIsInsecure | src/main/java/edu/hm/hafner/util/StringUtils.java:115-117 | fewer than 10 distinct code units make a password insecure |
| StringUtils.MissingCategoryIsInsecure | src/main/java/edu/hm/hafner/util/StringUtils.java:119-141 | a password without any decimal digit, or without any upper-case letter, or without any lower-case letter, is insecure |
| StringUtils.MissingSpecialIsInsecure | src/main/java/edu/hm/hafner/util/StringUtils.java:135-141 | a password made only of digits and letters is insecure |
| StringUtils.SecureIsMonotone | src/main/java/edu/hm/hafner/util/StringUtils.java:101-142 | appending anything to a secure password keeps it secure |
| StringUtils.SubsetCardinality | src/main/java/edu/hm/hafner/util/StringUtils.java:115-117 | a subset of the distinct code units is never larger than the whole set, so the size gate only gets easier to pass as the set grows |
| StringUtils.SecureDependsOnDistinctOnly | src/main/java/edu/hm/hafner/util/StringUtils.java:108-141 | for passwords of at least 20 code units, the verdict depends only on the set of distinct code units, not on their order or repetition |
| StringUtils.AsciiSignificance | src/main/java/edu/hm/hafner/util/StringUtils.java:197-198 | under a sound classifier, the only ASCII code units removeBlanksAndHyphens drops are ' ' and '-' |
| StringUtils.RemoveBlanksAndHyphens | src/main/java/edu/hm/hafner/util/StringUtils.java:192-203 | returns the input without its SPACE_SEPARATOR and DASH_PUNCTUATION code units, every other unit kept in order |
| StringUtils.Values | src/main/java/edu/hm/hafner/util/StringUtils.java:174 | one numeric value per code unit, each as `getNumericValue` gives it |
| StringUtils.CheckDigit | src/main/java/edu/hm/hafner/util/StringUtils.java:178-179 | the checksum expression, with Java's `%`, always yields a digit 0..9, whatever the twelve values are |
| StringUtils.IsValidIsbn13 | src/main/java/edu/hm/hafner/util/StringUtils.java:156-182 | true if and only if the input is non-null and, once space separators and dashes are removed, is thirteen decimal digits whose last one equals the code's check digit of the first twelve |
| StringUtils.DigitValues | src/main/java/edu/hm/hafner/util/StringUtils.java:168-175 | a new int[13]; the loop completes exactly when all thirteen code units are decimal digits, and then the array holds their numeric values in order |
| StringUtils.CheckDigitIsIsoRule | src/main/java/edu/hm/hafner/util/StringUtils.java:178-181 | for digits 0..9, the code's comparison succeeds if and only if the ISO 2108 weighted sum (weights 1,3,1,…,1) of all thirteen digits is a multiple of 10 |
| StringUtils.ValidIsbn13IsIsoRule | src/main/java/edu/hm/hafner/util/StringUtils.java:156-182 | under a sound classifier, isValidIsbn13 accepts exactly the non-null strings that reduce to thirteen decimal digits satisfying the ISO 2108 rule |
| StringUtils.CheckDigitArithmetic | src/main/java/edu/hm/hafner/util/StringUtils.java:178-181 | for a non-negative sum and a digit d, `(10 - sum % 10) % 10 == d` if and only if sum + d is a multiple of 10 |
| StringUtils.SeparatorIsDropped | src/main/java/edu/hm/hafner/util/StringUtils.java:196-201 | a space separator or dash inserted anywhere is removed again |
| StringUtils.SeparatorsAreIgnored | src/main/java/edu/hm/hafner/util/StringUtils.java:162 | inserting a space separator or a dash anywhere never changes isValidIsbn13's verdict |
| StringUtils.Interleave | src/test/java/edu/hm/hafner/util/StringUtilsTest.java:250-251 | a string with a separator between every two code units has 2n-1 code units |
| StringUtils.InterleaveAt | src/test/java/edu/hm/hafner/util/StringUtilsTest.java:250-251 | the interleaved string holds the input's code units at even positions and the separator at odd ones |
| StringUtils.SeparatorsEverywhereAreDropped | src/main/java/edu/hm/hafner/util/StringUtils.java:192-203 | a separator between every two code units is removed completely |
| StringUtils.SeparatorsEverywhereAreIgnored | src/main/java/edu/hm/hafner/util/StringUtils.java:162 | an ISBN-13 with a space or a dash between all its code units gets the same verdict as without them |
| StringUtils.SeparatorFreeFormIsEquivalent | src/main/java/edu/hm/hafner/util/StringUtils.java:162 | removing separators before the call does not change the verdict |
| StringUtils.CheckDigitIsUnique | src/main/java/edu/hm/hafner/util/StringUtils.java:178-181 | for a fixed prefix, all significant final code units (neither a space separator nor a dash) that validate have the same numeric value; under a sound classifier, at most one significant final ASCII character validates |
| StringUtils.SignificantAppended | src/main/java/edu/hm/hafner/util/StringUtils.java:196-201 | a code unit that is neither a space separator nor a dash, appended to the input, is appended to the output |
| StringUtils.SameAsciiDigit | src/main/java/edu/hm/hafner/util/StringUtils.java:171-174 | two ASCII decimal digits with the same numeric value are the same digit |
| StringUtils.Render | src/main/java/edu/hm/hafner/util/StringUtils.java:37-38 | a non-null element is rendered as itself; null is rendered as six code units containing no comma |
| StringUtils.JoinElements | src/main/java/edu/hm/hafner/util/StringUtils.java:35-36 | n rendered elements joined with commas have at least n-1 code units, one comma between each two |
| StringUtils.Join | src/main/java/edu/hm/hafner/util/StringUtils.java:34-44 | documented join: fails with IllegalArgumentException if and only if there are no elements; a null array gives "(null)"; a single element comes back rendered as it is |
| StringUtils.JoinAsWritten | src/main/java/edu/hm/hafner/util/StringUtils.java:45-47 | the stub body returns null for every argument |
| StringUtils.JoinAppend | src/main/java/edu/hm/hafner/util/StringUtils.java:35-36 | joining a concatenation is joining both halves around one comma |
| StringUtils.RenderAll | src/main/java/edu/hm/hafner/util/StringUtils.java:37-38 | each element is rendered as itself, or as "(null)" when null |
| StringUtils.SplitAtCommas | src/main/java/edu/hm/hafner/util/StringUtils.java:35-36 | splitting at commas always yields at least one piece |
| StringUtils.SplitPiece | src/main/java/edu/hm/hafner/util/StringUtils.java:35-36 | a comma-free piece followed by a comma splits off as one element |
| StringUtils.JoinThenSplit | src/main/java/edu/hm/hafner/util/StringUtils.java:34-44 | when no rendered element contains a comma, splitting the joined string at its commas gives back the rendered elements in order |
| StringUtils.JoinLength | src/main/java/edu/hm/hafner/util/StringUtils.java:34-44 | the joined string's length is the rendered elements' lengths plus one comma between each two |
| StringUtils.IsValidIsbn10AsWritten | src/main/java/edu/hm/hafner/util/StringUtils.java:58-60 | the stub body rejects every input |
| StringUtils.ValidIsbn10 | src/main/java/edu/hm/hafner/util/StringUtils.java:49-57 | the documented ISBN-10 rule accepts only a non-null string of at least ten code units |
| StringUtils.Isbn10SeparatorsAreIgnored | src/main/java/edu/hm/hafner/util/StringUtils.java:49-57 | under the documented ISBN-10 rule, inserting a space separator or a dash anywhere never changes the verdict |
| StringUtilsExamples.BlankCases | src/test/java/edu/hm/hafner/util/StringUtilsTest.java:21-38 | null and "" are blank; " ", "\t", "\n" and "abc" are not |
| StringUtilsExamples.StripEdgeCases | src/test/java/edu/hm/hafner/util/StringUtilsTest.java:191-194 | stripping "" gives ""; stripping by "" changes nothing; stripping "ABCabc123" by itself gives "" |
| StringUtilsExamples.StripMiddle | src/test/java/edu/hm/hafner/util/StringUtilsTest.java:197 | strip("ABCabc123", "4a5b6c7") is "ABC123" |
| StringUtilsExamples.StripMiddleParts | src/test/java/edu/hm/hafner/util/StringUtilsTest.java:197 | the same, over the code units of both arguments |
| StringUtilsExamples.StripBlocks | src/test/java/edu/hm/hafner/util/StringUtilsTest.java:197 | of "ABC", "abc" and "123", only "abc" is removed by "4a5b6c7" |
| StringUtilsExamples.StripDisjoint | src/test/java/edu/hm/hafner/util/StringUtilsTest.java:193 | strip("ABCabc123", "DEFdef456") changes nothing |
| StringUtilsExamples.StripFirst | src/test/java/edu/hm/hafner/util/StringUtilsTest.java:195 | strip("ABCabc123", "XAZ") is "BCabc123" |
| StringUtilsExamples.StripLast | src/test/java/edu/hm/hafner/util/StringUtilsTest.java:196 | strip("ABCabc123", "X3Z") is "ABCabc12" |
| StringUtilsExamples.StripSpaces | src/test/java/edu/hm/hafner/util/StringUtilsTest.java:198 | strip("ABC abc 123", " ") is "ABCabc123" |
| StringUtilsExamples.DroppedBetween | src/main/java/edu/hm/hafner/util/StringUtils.java:80-84 | a removed code unit between two strings joins what survives of each |
| StringUtilsExamples.JoinSmallCases | src/test/java/edu/hm/hafner/util/StringUtilsTest.java:46-70 | no elements fail with IllegalArgumentException; join("blub") is "blub"; a null array gives "(null)" |
| StringUtilsExamples.JoinWithNullElement | src/test/java/edu/hm/hafner/util/StringUtilsTest.java:78-87 | join("Hallo", null, "du") is "Hallo,(null),du" |
| StringUtilsExamples.JoinWithNullEnds | src/test/java/edu/hm/hafner/util/StringUtilsTest.java:96-105 | null first and last elements appear as "(null)" at both ends, each separated by one comma |
| StringUtilsExamples.JoinAsWrittenMissesSingleElement | src/test/java/edu/hm/hafner/util/StringUtilsTest.java:56-58 | the stub does not return "blub" for join("blub") |
| StringUtilsExamples.AsciiCategories | src/main/java/edu/hm/hafner/util/StringUtils.java:125 | under a sound classifier every ASCII code unit has its ASCII category |
| StringUtilsExamples.SecurePassword | src/test/java/edu/hm/hafner/util/StringUtilsTest.java:236 | "123456abcdefABCDEF#%&" is secure |
| StringUtilsExamples.StrongHasEveryCategory | src/test/java/edu/hm/hafner/util/StringUtilsTest.java:236 | its distinct code units include a digit, a lower-case and an upper-case letter, and a special character |
| StringUtilsExamples.StrongSamples | src/test/java/edu/hm/hafner/util/StringUtilsTest.java:236 | '1', 'a', 'A' and '#' are among its distinct code units |
| StringUtilsExamples.StrongHasTenDistinct | src/test/java/edu/hm/hafner/util/StringUtilsTest.java:236 | it has at least 10 distinct code units |
| StringUtilsExamples.ShortPassword | src/test/java/edu/hm/hafner/util/StringUtilsTest.java:230 | a 19-character password is insecure |
| StringUtilsExamples.AsciiWithoutCategory | src/test/java/edu/hm/hafner/util/StringUtilsTest.java:231-233 | an ASCII password without a digit, a lower-case or an upper-case letter is insecure |
| StringUtilsExamples.AsciiWithoutSpecial | src/test/java/edu/hm/hafner/util/StringUtilsTest.java:234 | an ASCII password of digits and letters only is insecure |
| StringUtilsExamples.LacksDigit | src/test/java/edu/hm/hafner/util/StringUtilsTest.java:231 | "abcdefghijABCDEFGHIJ#%&" is ASCII without a digit |
| StringUtilsExamples.LacksLowercase | src/test/java/edu/hm/hafner/util/StringUtilsTest.java:232 | "1234567890ABCDEFGHIJ#%&" is ASCII without a lower-case letter |
| StringUtilsExamples.LacksUppercase | src/test/java/edu/hm/hafner/util/StringUtilsTest.java:233 | "1234567890abcdefghij#%&" is ASCII without an upper-case letter |
| StringUtilsExamples.LacksSpecial | src/test/java/edu/hm/hafner/util/StringUtilsTest.java:234 | "abcdefghijABCDEFGHI123" is ASCII without a special character |
| StringUtilsExamples.PasswordWithoutDigit | src/test/java/edu/hm/hafner/util/StringUtilsTest.java:231 | that password is insecure |
| StringUtilsExamples.PasswordWithoutLowercase | src/test/java/edu/hm/hafner/util/StringUtilsTest.java:232 | that password is insecure |
| StringUtilsExamples.PasswordWithoutUppercase | src/test/java/edu/hm/hafner/util/StringUtilsTest.java:233 | that password is insecure |
| StringUtilsExamples.PasswordWithoutSpecial | src/test/java/edu/hm/hafner/util/StringUtilsTest.java:234 | that password is insecure |
| StringUtilsExamples.PasswordWithNineDistinct | src/test/java/edu/hm/hafner/util/StringUtilsTest.java:235 | "12abAB#%&&&&&&&&&&&&", with nine distinct code units, is insecure for any classifier |
| StringUtilsExamples.AsciiDigitsAreKept | src/main/java/edu/hm/hafner/util/StringUtils.java:168-175 | ASCII digits survive separator removal, are decimal digits, and have the values 0..9 |
| StringUtilsExamples.Isbn13Accepted | src/test/java/edu/hm/hafner/util/StringUtilsTest.java:286 | "9780321356680" is a valid ISBN-13 |
| StringUtilsExamples.Isbn13Checks | src/test/java/edu/hm/hafner/util/StringUtilsTest.java:286 | the same, over its code units |
| StringUtilsExamples.Isbn13WithSpaceAtTheEnds | src/test/java/edu/hm/hafner/util/StringUtilsTest.java:246-247 | a leading or trailing space keeps it valid |
| StringUtilsExamples.Isbn13WithHyphenAtTheEnds | src/test/java/edu/hm/hafner/util/StringUtilsTest.java:248-249 | a leading or trailing hyphen keeps it valid |
| StringUtilsExamples.Isbn13WithSeparatorsEverywhere | src/test/java/edu/hm/hafner/util/StringUtilsTest.java:250-251 | "9 7 8 0 3 2 1 3 5 6 6 8 0" and "9-7-8-0-3-2-1-3-5-6-6-8-0" are valid |
| StringUtilsExamples.InterleavedIsbn13IsValid | src/test/java/edu/hm/hafner/util/StringUtilsTest.java:250-251 | "9780321356680" with a space, or a hyphen, between every two digits is valid |
| StringUtilsExamples.SpacedIsbn13IsInterleaved | src/test/java/edu/hm/hafner/util/StringUtilsTest.java:250-251 | those two literals are "9780321356680" interleaved with ' ' and with '-' |
| StringUtilsExamples.InterleavedIsbn13 | src/test/java/edu/hm/hafner/util/StringUtilsTest.java:250-251 | interleaving "9780321356680" with any separator gives the written-out 25 code units |
| StringUtilsExamples.Isbn13WrongCheckDigit | src/test/java/edu/hm/hafner/util/StringUtilsTest.java:288-294 | "978032135668" followed by any of '1'..'9' is invalid |
| StringUtilsExamples.Isbn13WrongLength | src/test/java/edu/hm/hafner/util/StringUtilsTest.java:272-275 | null, "", twelve and fourteen digits are invalid |
| StringUtilsExamples.Isbn13WithLetter | src/test/java/edu/hm/hafner/util/StringUtilsTest.java:261 | "978A321356680" is invalid |
| StringUtilsExamples.Isbn13WithPercent | src/test/java/edu/hm/hafner/util/StringUtilsTest.java:262 | "978%321356680" is invalid |
| StringUtilsExamples.HyphensAreDropped | src/test/java/edu/hm/hafner/util/StringUtilsTest.java:119 | the three hyphens of a grouped ISBN are removed, joining the four groups |
| StringUtilsExamples.SeparatorSplits | src/main/java/edu/hm/hafner/util/StringUtils.java:196-201 | a removed separator between two strings joins what survives of each |
| StringUtilsExamples.Isbn10OfAsciiDigits | src/main/java/edu/hm/hafner/util/StringUtils.java:49-57 | ten ASCII digits form a valid ISBN-10 if and only if their weighted sum (weights 10 down to 1) is a multiple of 11 |
| StringUtilsExamples.Isbn10Accepted | src/test/java/edu/hm/hafner/util/StringUtilsTest.java:119-122 | "3866801920", the digits of the first valid test ISBN, satisfy the documented rule |
| StringUtilsExamples.Isbn10Checks | src/test/java/edu/hm/hafner/util/StringUtilsTest.java:119-122 | the same, over its code units |
| StringUtilsExamples.Isbn10WithSeparators | src/test/java/edu/hm/hafner/util/StringUtilsTest.java:119-123 | "3-86680-192-0" and "3 - 8 6 6 8 0 - 1 9 2 - 0" satisfy the documented rule, and the stub rejects the first |
| StringUtilsExamples.HyphenatedIsbn10IsValid | src/test/java/edu/hm/hafner/util/StringUtilsTest.java:119-123 | the hyphenated ISBN-10 and its space-interleaved form satisfy the documented rule |
| StringUtilsExamples.SpacedIsbn10IsInterleaved | src/test/java/edu/hm/hafner/util/StringUtilsTest.java:120 | "3 - 8 6 6 8 0 - 1 9 2 - 0" is "3-86680-192-0" interleaved with ' ' |
| StringUtilsExamples.InterleavedIsbn10 | src/test/java/edu/hm/hafner/util/StringUtilsTest.java:120 | interleaving "3-86680-192-0" with any separator gives the written-out 25 code units |
| StringUtilsExamples.Isbn10TooLong | src/test/java/edu/hm/hafner/util/StringUtilsTest.java:132-151 | null and "3-86680-192-08" are invalid |
| StringUtilsExamples.Isbn10TooShort | src/test/java/edu/hm/hafner/util/StringUtilsTest.java:149-152 | "3-86680-192-" is invalid |
| StringUtilsExamples.Isbn10WrongParity | src/test/java/edu/hm/hafner/util/StringUtilsTest.java:164-166 | "3-86680-192-9" is invalid |
| StringUtilsExamples.WrongParityChecks | src/test/java/edu/hm/hafner/util/StringUtilsTest.java:164-166 | the same, over its code units |
| StringUtilsExamples.Isbn10WithLetter | src/test/java/edu/hm/hafner/util/StringUtilsTest.java:178-180 | "3-8a680-192-0" is invalid |

## Left out

- The JDK's Unicode tables behind `Character.getType` and `Character.getNumericValue` are not modelled. The classifier is a parameter; `Sound` fixes only what the proofs need.
- The message text of the `IllegalArgumentException` is not modelled; only the fact that it is thrown.
- `HashSet` hashing, its iteration order and `StringBuilder` internals are not modelled. The model keeps only their effect: a set, visited in an unspecified order, and a sequence that grows at the end.
- The private constructor is not modelled: it only prevents instantiation.
- 32-bit `int` overflow is not modelled. The only `int` arithmetic is the check-digit sum. Under `Sound` it is at most 9·6 + 3·9·6 = 216, so no overflow can occur.
- Characters outside the Basic Multilingual Plane are not modelled. `CodeUnits` writes the test literals, which contain none, as code units; a surrogate pair is not formed.
- ByteStreamsTest is not modelled. It tests Guava stream copying through mocks, and none of that code is visible. package-info.java holds no code.
- StringUtilsExamples.JoinWithNullEnds: does not spell out the 20-element join test literally. It proves the shape for any middle part: "(null)" at both ends, one comma each.
- StringUtilsExamples.StripRejectsNull: has no ensures. It only shows that both null arguments reach the failure branch of `Strip`, whose contract already states it.
- StringUtils.ValidIsbn10: the Javadoc only says "valid 10-digit ISBN". The ISO 2108 rule, with 'X' allowed as a check symbol of value 10, is an assumption about that documentation, chosen to agree with the assertions of StringUtilsTest.

## Findings

| source | as written | input that shows it | evidently intended | confidence | as-written member | corrected member |
|---|---|---|---|---|---|---|
| src/main/java/edu/hm/hafner/util/StringUtils.java:45-47 | `join` returns null for every argument | `join("blub")` gives null, not "blub" | the documented join: elements separated by commas, null shown as "(null)", no elements rejected | not executed | StringUtils.JoinAsWritten, StringUtilsExamples.JoinAsWrittenMissesSingleElement | StringUtils.Join, StringUtils.JoinThenSplit |
| src/main/java/edu/hm/hafner/util/StringUtils.java:58-60 | `isValidISBN10` returns false for every argument | `isValidISBN10("3-86680-192-0")` gives false although the ISBN is valid | the ISBN-10 rule of ISO 2108 after removing spaces and hyphens | not executed | StringUtils.IsValidIsbn10AsWritten, StringUtilsExamples.Isbn10WithSeparators | StringUtils.ValidIsbn10, StringUtils.Isbn10SeparatorsAreIgnored |
