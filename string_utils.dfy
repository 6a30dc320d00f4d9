/** The static utility class edu.hm.hafner.util.StringUtils: blank test, comma join (its
    documented contract), strip, password strength and ISBN checks. Every operation is a
    static method of the Java class; none keeps state between calls. */
module StringUtils {
  import opened JavaLang

  // ---------------------------------------------------------------------------------------
  // isBlank

  /** isBlank: null, or a string without any code unit. Whitespace is not blank. */
  function IsBlank(value: Nullable<JString>): (blank: bool)
    ensures blank <==> value == Null || value == Ref([])
  {
    value.Null? || |value.value| == 0
  }

  // ---------------------------------------------------------------------------------------
  // Filtering, the effect of the StringBuilder loops in strip and removeBlanksAndHyphens

  /** The code units of `s` that satisfy `keep`, in their original order; defined from the
      end, as a builder that appends one code unit per step grows. */
  function Filter(s: JString, keep: CodeUnit -> bool): (r: JString)
    ensures |r| <= |s|
    ensures forall i | 0 <= i < |r| :: keep(r[i])
  {
    if s == [] then []
    else Filter(s[..|s| - 1], keep) + (if keep(s[|s| - 1]) then [s[|s| - 1]] else [])
  }

  /** Filtering commutes with concatenation: each code unit is decided on its own. */
  lemma {:induction false} FilterAppend(a: JString, b: JString, keep: CodeUnit -> bool)
    ensures Filter(a + b, keep) == Filter(a, keep) + Filter(b, keep)
  {
    if b == [] {
      assert a + b == a;
    } else {
      var b' := b[..|b| - 1];
      assert (a + b)[..|a + b| - 1] == a + b';
      FilterAppend(a, b', keep);
    }
  }

  /** The same, for one code unit in front. */
  lemma {:induction false} FilterCons(u: CodeUnit, s: JString, keep: CodeUnit -> bool)
    ensures Filter([u] + s, keep) == (if keep(u) then [u] else []) + Filter(s, keep)
  {
    FilterAppend([u], s, keep);
    assert [u][..0] == [];
    assert Filter([u], keep) == if keep(u) then [u] else [];
  }

  /** A code unit survives exactly when it occurs in the input and is kept. */
  lemma {:induction false} FilterMembership(s: JString, keep: CodeUnit -> bool, u: CodeUnit)
    ensures u in Filter(s, keep) <==> u in s && keep(u)
  {
    if s != [] {
      var s' := s[..|s| - 1];
      assert s == s' + [s[|s| - 1]];
      FilterMembership(s', keep, u);
    }
  }

  /** Every kept code unit keeps its number of occurrences; every other one disappears. */
  lemma {:induction false} FilterCounts(s: JString, keep: CodeUnit -> bool, u: CodeUnit)
    ensures multiset(Filter(s, keep))[u] == if keep(u) then multiset(s)[u] else 0
  {
    if s != [] {
      var s' := s[..|s| - 1];
      assert s == s' + [s[|s| - 1]];
      FilterCounts(s', keep, u);
    }
  }

  /** Input that is kept entirely comes back unchanged. */
  lemma {:induction false} FilterKeepsAll(s: JString, keep: CodeUnit -> bool)
    requires forall i | 0 <= i < |s| :: keep(s[i])
    ensures Filter(s, keep) == s
  {
    if s != [] {
      var s' := s[..|s| - 1];
      assert s == s' + [s[|s| - 1]];
      FilterKeepsAll(s', keep);
    }
  }

  /** Input none of whose code units is kept becomes empty. */
  lemma {:induction false} FilterDropsAll(s: JString, keep: CodeUnit -> bool)
    requires forall i | 0 <= i < |s| :: !keep(s[i])
    ensures Filter(s, keep) == []
  {
    if s != [] {
      FilterDropsAll(s[..|s| - 1], keep);
    }
  }

  /** Filtering twice with the same predicate is filtering once. */
  lemma FilterIdempotent(s: JString, keep: CodeUnit -> bool)
    ensures Filter(Filter(s, keep), keep) == Filter(s, keep)
  {
    FilterKeepsAll(Filter(s, keep), keep);
  }

  // ---------------------------------------------------------------------------------------
  // strip

  /** The membership test of strip: a code unit is kept when `toBeRemoved` does not contain it
      (String.contains of the one-unit string String.valueOf(c)). */
  function NotIn(toBeRemoved: JString): CodeUnit -> bool {
    u => u !in toBeRemoved
  }

  /** strip keeps a code unit exactly when String.contains does not find it, as a one-unit
      string, in `toBeRemoved`. */
  lemma NotInIsNotContained(toBeRemoved: JString, u: CodeUnit)
    ensures NotIn(toBeRemoved)(u) <==> !Contains(toBeRemoved, [u])
  {
    ContainsOne(toBeRemoved, u);
  }

  /** String.contains: `piece` occurs in `s` at some position. */
  function Contains(s: JString, piece: JString): bool {
    |piece| <= |s| && (s[..|piece|] == piece || Contains(s[1..], piece))
  }

  /** A one-unit string occurs in `s` exactly when that unit is one of its code units. */
  lemma {:induction false} ContainsOne(s: JString, u: CodeUnit)
    ensures Contains(s, [u]) <==> u in s
  {
    if s != [] {
      ContainsOne(s[1..], u);
      assert s == [s[0]] + s[1..];
    }
  }

  /** strip: both arguments must be non-null (IllegalArgumentException otherwise); the result
      is the input without any code unit that occurs in `toBeRemoved`, order preserved. */
  method Strip(input: Nullable<JString>, toBeRemoved: Nullable<JString>) returns (r: Result<JString>)
    ensures r.Failure? <==> input.Null? || toBeRemoved.Null?
    ensures r.Failure? ==> r.error == IllegalArgumentException
    ensures r.Success? ==> r.value == Filter(input.value, NotIn(toBeRemoved.value))
  {
    if input.Null? || toBeRemoved.Null? {
      return Failure(IllegalArgumentException);
    }
    var chars, removal := input.value, toBeRemoved.value;
    var builder: JString := [];
    for i := 0 to |chars|
      invariant builder == Filter(chars[..i], NotIn(removal))
    {
      assert chars[..i + 1][..i] == chars[..i];
      if chars[i] !in removal {
        builder := builder + [chars[i]];
      }
    }
    assert chars[..|chars|] == chars;
    return Success(builder);
  }

  /** The stripped string is exactly the input's code units outside `toBeRemoved`, in order:
      with the same count for each of them, none of `toBeRemoved`, never longer. */
  lemma StripCharacterisation(s: JString, toBeRemoved: JString, u: CodeUnit)
    ensures multiset(Filter(s, NotIn(toBeRemoved)))[u] == if u in toBeRemoved then 0 else multiset(s)[u]
    ensures u in Filter(s, NotIn(toBeRemoved)) <==> u in s && u !in toBeRemoved
    ensures |Filter(s, NotIn(toBeRemoved))| <= |s|
  {
    FilterCounts(s, NotIn(toBeRemoved), u);
    FilterMembership(s, NotIn(toBeRemoved), u);
  }

  /** Stripping a concatenation strips each part. */
  lemma StripAppend(a: JString, b: JString, toBeRemoved: JString)
    ensures Filter(a + b, NotIn(toBeRemoved)) == Filter(a, NotIn(toBeRemoved)) + Filter(b, NotIn(toBeRemoved))
  {
    FilterAppend(a, b, NotIn(toBeRemoved));
  }

  /** A second strip with the same removal string changes nothing. */
  lemma StripIdempotent(s: JString, toBeRemoved: JString)
    ensures Filter(Filter(s, NotIn(toBeRemoved)), NotIn(toBeRemoved)) == Filter(s, NotIn(toBeRemoved))
  {
    FilterIdempotent(s, NotIn(toBeRemoved));
  }

  /** Stripping nothing returns the input unchanged. */
  lemma StripNothing(s: JString)
    ensures Filter(s, NotIn([])) == s
  {
    FilterKeepsAll(s, NotIn([]));
  }

  /** Stripping a string by itself leaves nothing. */
  lemma StripSelf(s: JString)
    ensures Filter(s, NotIn(s)) == []
  {
    FilterDropsAll(s, NotIn(s));
  }

  /** strip returns a blank string exactly when every code unit of the input is to be removed. */
  lemma StripToBlank(s: JString, toBeRemoved: JString)
    ensures IsBlank(Ref(Filter(s, NotIn(toBeRemoved)))) <==> forall i | 0 <= i < |s| :: s[i] in toBeRemoved
  {
    if forall i | 0 <= i < |s| :: s[i] in toBeRemoved {
      FilterDropsAll(s, NotIn(toBeRemoved));
    } else {
      var i :| 0 <= i < |s| && s[i] !in toBeRemoved;
      FilterMembership(s, NotIn(toBeRemoved), s[i]);
    }
  }

  // ---------------------------------------------------------------------------------------
  // isSecure

  /** The distinct code units of `s` (the HashSet<Character> isSecure fills). */
  function Distinct(s: JString): (chars: set<CodeUnit>)
    ensures |chars| <= |s|
  {
    if s == [] then {} else Distinct(s[..|s| - 1]) + {s[|s| - 1]}
  }

  /** The distinct code units are those that occur in the string. */
  lemma {:induction false} DistinctMembership(s: JString, u: CodeUnit)
    ensures u in Distinct(s) <==> u in s
  {
    if s != [] {
      var s' := s[..|s| - 1];
      assert s == s' + [s[|s| - 1]];
      DistinctMembership(s', u);
    }
  }

  /** Appending a code unit adds it to the distinct ones. */
  lemma DistinctSnoc(s: JString, u: CodeUnit)
    ensures Distinct(s + [u]) == Distinct(s) + {u}
  {
    assert (s + [u])[..|s|] == s;
  }

  /** Any category other than the three the switch in isSecure names: its `default` branch. */
  function IsSpecial(c: Category): (special: bool)
    ensures special <==> c == SpaceSeparator || c == DashPunctuation || c == Other
  {
    c != DecimalDigit && c != Uppercase && c != Lowercase
  }

  /** Some code unit of `chars` has category `c`. */
  ghost predicate HasCategory(k: CharClassifier, chars: set<CodeUnit>, c: Category) {
    exists u :: u in chars && k.typeOf(u) == c
  }

  /** Some code unit of `chars` falls into the `default` branch. */
  ghost predicate HasSpecial(k: CharClassifier, chars: set<CodeUnit>) {
    exists u :: u in chars && IsSpecial(k.typeOf(u))
  }

  /** The password rule isSecure documents: non-null, at least 20 code units, at least 10
      distinct ones, and among the distinct ones a decimal digit, an upper-case letter, a
      lower-case letter and one of any other category. */
  ghost predicate Secure(k: CharClassifier, password: Nullable<JString>) {
    && password.Ref?
    && |password.value| >= 20
    && |Distinct(password.value)| >= 10
    && HasCategory(k, Distinct(password.value), DecimalDigit)
    && HasCategory(k, Distinct(password.value), Uppercase)
    && HasCategory(k, Distinct(password.value), Lowercase)
    && HasSpecial(k, Distinct(password.value))
  }

  /** isSecure: the length gate, then the set of distinct code units and its size gate, then
      the category flags over that set. The two loops are the methods below. */
  method IsSecure(k: CharClassifier, password: Nullable<JString>) returns (secure: bool)
    ensures secure == Secure(k, password)
  {
    if password.Null? || |password.value| < 20 {
      return false;
    }
    var characterSet := CollectCharacters(password.value);
    if |characterSet| < 10 {
      return false;
    }
    var numberFound, uppercaseFound, lowercaseFound, specialFound := ClassifyCharacters(k, characterSet);
    return numberFound && uppercaseFound && lowercaseFound && specialFound;
  }

  /** isSecure's first loop: every code unit of the password is added to a HashSet. */
  method CollectCharacters(chars: JString) returns (characterSet: set<CodeUnit>)
    ensures characterSet == Distinct(chars)
  {
    characterSet := {};
    for i := 0 to |chars|
      invariant characterSet == Distinct(chars[..i])
    {
      DistinctSnoc(chars[..i], chars[i]);
      assert chars[..i + 1] == chars[..i] + [chars[i]];
      characterSet := characterSet + {chars[i]};
    }
    assert chars[..|chars|] == chars;
  }

  /** isSecure's second loop: the switch on each distinct code unit's category raises one of
      four flags; a flag ends up raised exactly when some code unit of the set belongs to it. */
  method ClassifyCharacters(k: CharClassifier, characterSet: set<CodeUnit>)
    returns (numberFound: bool, uppercaseFound: bool, lowercaseFound: bool, specialFound: bool)
    ensures numberFound == HasCategory(k, characterSet, DecimalDigit)
    ensures uppercaseFound == HasCategory(k, characterSet, Uppercase)
    ensures lowercaseFound == HasCategory(k, characterSet, Lowercase)
    ensures specialFound == HasSpecial(k, characterSet)
  {
    numberFound, uppercaseFound, lowercaseFound, specialFound := false, false, false, false;
    var unvisited := characterSet;
    ghost var visited: set<CodeUnit> := {};
    while unvisited != {}
      invariant visited + unvisited == characterSet
      invariant numberFound == HasCategory(k, visited, DecimalDigit)
      invariant uppercaseFound == HasCategory(k, visited, Uppercase)
      invariant lowercaseFound == HasCategory(k, visited, Lowercase)
      invariant specialFound == HasSpecial(k, visited)
      decreases unvisited
    {
      var u :| u in unvisited;
      VisitOne(k, visited, u);
      match k.typeOf(u) {
        case DecimalDigit => numberFound := true;
        case Uppercase => uppercaseFound := true;
        case Lowercase => lowercaseFound := true;
        case _ => specialFound := true;
      }
      visited := visited + {u};
      unvisited := unvisited - {u};
    }
  }

  /** What visiting one more code unit does to the four category flags. */
  lemma VisitOne(k: CharClassifier, visited: set<CodeUnit>, u: CodeUnit)
    ensures HasCategory(k, visited + {u}, DecimalDigit) == (HasCategory(k, visited, DecimalDigit) || k.typeOf(u) == DecimalDigit)
    ensures HasCategory(k, visited + {u}, Uppercase) == (HasCategory(k, visited, Uppercase) || k.typeOf(u) == Uppercase)
    ensures HasCategory(k, visited + {u}, Lowercase) == (HasCategory(k, visited, Lowercase) || k.typeOf(u) == Lowercase)
    ensures HasSpecial(k, visited + {u}) == (HasSpecial(k, visited) || IsSpecial(k.typeOf(u)))
  {
    VisitOneCategory(k, visited, u, DecimalDigit);
    VisitOneCategory(k, visited, u, Uppercase);
    VisitOneCategory(k, visited, u, Lowercase);
    if HasSpecial(k, visited + {u}) {
      var w :| w in visited + {u} && IsSpecial(k.typeOf(w));
      assert w == u || w in visited;
    }
  }

  /** Visiting one more code unit finds category `c` when it has that category. */
  lemma VisitOneCategory(k: CharClassifier, visited: set<CodeUnit>, u: CodeUnit, c: Category)
    ensures HasCategory(k, visited + {u}, c) == (HasCategory(k, visited, c) || k.typeOf(u) == c)
  {
    if HasCategory(k, visited + {u}, c) {
      var w :| w in visited + {u} && k.typeOf(w) == c;
      assert w == u || w in visited;
    }
  }

  /** Null, and anything shorter than 20 code units, is insecure whatever it contains. */
  lemma ShortPasswordsAreInsecure(k: CharClassifier, password: Nullable<JString>)
    requires password.Null? || |password.value| < 20
    ensures !Secure(k, password)
  {
  }

  /** Fewer than 10 distinct code units is insecure; in particular fewer than 10 code units in
      all, whatever the length gate says. */
  lemma FewDistinctIsInsecure(k: CharClassifier, s: JString)
    requires |Distinct(s)| < 10
    ensures !Secure(k, Ref(s))
  {
  }

  /** A password none of whose code units is a decimal digit, or none an upper-case letter, or
      none a lower-case letter, is insecure. */
  lemma MissingCategoryIsInsecure(k: CharClassifier, s: JString, c: Category)
    requires c == DecimalDigit || c == Uppercase || c == Lowercase
    requires forall i | 0 <= i < |s| :: k.typeOf(s[i]) != c
    ensures !Secure(k, Ref(s))
  {
    if HasCategory(k, Distinct(s), c) {
      var u :| u in Distinct(s) && k.typeOf(u) == c;
      DistinctMembership(s, u);
    }
  }

  /** A password all of whose code units are digits or letters is insecure. */
  lemma MissingSpecialIsInsecure(k: CharClassifier, s: JString)
    requires forall i | 0 <= i < |s| :: !IsSpecial(k.typeOf(s[i]))
    ensures !Secure(k, Ref(s))
  {
    if HasSpecial(k, Distinct(s)) {
      var u :| u in Distinct(s) && IsSpecial(k.typeOf(u));
      DistinctMembership(s, u);
    }
  }

  /** Appending to a secure password keeps it secure: the length and the set of distinct code
      units only grow, and a category once present stays present. */
  lemma {:induction false} SecureIsMonotone(k: CharClassifier, s: JString, t: JString)
    requires Secure(k, Ref(s))
    ensures Secure(k, Ref(s + t))
  {
    var a, b := Distinct(s), Distinct(s + t);
    assert a <= b by {
      forall u | u in a ensures u in b {
        DistinctMembership(s, u);
        DistinctMembership(s + t, u);
      }
    }
    SubsetCardinality(a, b);
  }

  /** A subset is never larger than its superset. */
  lemma {:induction false} SubsetCardinality(a: set<CodeUnit>, b: set<CodeUnit>)
    requires a <= b
    ensures |a| <= |b|
    decreases |a|
  {
    if a != {} {
      var u :| u in a;
      SubsetCardinality(a - {u}, b - {u});
    }
  }

  /** Whether a password is secure depends on its length and its set of distinct code units
      only, not on their order or multiplicity. */
  lemma SecureDependsOnDistinctOnly(k: CharClassifier, s: JString, t: JString)
    requires |s| >= 20 && |t| >= 20
    requires Distinct(s) == Distinct(t)
    ensures Secure(k, Ref(s)) == Secure(k, Ref(t))
  {
  }

  // ---------------------------------------------------------------------------------------
  // removeBlanksAndHyphens and isValidIsbn13

  /** The test of removeBlanksAndHyphens: a code unit is kept unless its general category is
      SPACE_SEPARATOR or DASH_PUNCTUATION. */
  function Significant(k: CharClassifier): CodeUnit -> bool {
    u => k.typeOf(u) != SpaceSeparator && k.typeOf(u) != DashPunctuation
  }

  /** Among the ASCII code units, exactly ' ' and '-' are removed. */
  lemma AsciiSignificance(k: CharClassifier, u: CodeUnit)
    requires Sound(k) && u < 0x80
    ensures Significant(k)(u) <==> u != 0x20 && u != 0x2D
  {
  }

  /** removeBlanksAndHyphens: the input without its space separators and dashes, in order. */
  method RemoveBlanksAndHyphens(k: CharClassifier, s: JString) returns (r: JString)
    ensures r == Filter(s, Significant(k))
  {
    var builder: JString := [];
    for i := 0 to |s|
      invariant builder == Filter(s[..i], Significant(k))
    {
      assert s[..i + 1][..i] == s[..i];
      var category := k.typeOf(s[i]);
      if category != SpaceSeparator && category != DashPunctuation {
        builder := builder + [s[i]];
      }
    }
    assert s[..|s|] == s;
    return builder;
  }

  /** The numeric values of a sequence of code units, as getNumericValue gives them. */
  function Values(k: CharClassifier, s: JString): (n: seq<int>)
    ensures |n| == |s|
    ensures forall i | 0 <= i < |s| :: n[i] == k.numericValue(s[i])
  {
    seq(|s|, i requires 0 <= i < |s| => k.numericValue(s[i]))
  }

  /** The check digit isValidIsbn13 computes from the first twelve digits: weight 1 at even
      indices, weight 3 at odd ones, with Java's remainder. */
  function CheckDigit(n: seq<int>): (d: int)
    requires |n| >= 12
    ensures 0 <= d <= 9
  {
    JavaRem(10 - JavaRem(n[0] + n[2] + n[4] + n[6] + n[8] + n[10]
                         + 3 * (n[1] + n[3] + n[5] + n[7] + n[9] + n[11]), 10), 10)
  }

  /** The code units left once separators are removed are thirteen decimal digits. */
  ghost predicate ThirteenDigits(k: CharClassifier, d: JString) {
    |d| == 13 && forall i | 0 <= i < 13 :: k.typeOf(d[i]) == DecimalDigit
  }

  /** What isValidIsbn13 accepts: a non-null string that, without its space separators and
      dashes, is thirteen decimal digits whose last one equals the check digit of the others. */
  ghost predicate ValidIsbn13(k: CharClassifier, isbn: Nullable<JString>) {
    && isbn.Ref?
    && var d := Filter(isbn.value, Significant(k));
    && ThirteenDigits(k, d)
    && CheckDigit(Values(k, d)) == k.numericValue(d[12])
  }

  /** isValidIsbn13: removes separators, checks the length, converts the thirteen code units into
      an int[13] (returning false at the first non-digit) and compares the check digit. */
  method IsValidIsbn13(k: CharClassifier, isbn: Nullable<JString>) returns (valid: bool)
    ensures valid == ValidIsbn13(k, isbn)
  {
    if isbn.Null? {
      return false;
    }
    var characters := RemoveBlanksAndHyphens(k, isbn.value);
    if |characters| != 13 {
      return false;
    }
    var numbers, allDigits := DigitValues(k, characters);
    if !allDigits {
      return false;
    }
    var checksum := CheckDigit(numbers[..]);
    return checksum == numbers[12];
  }

  /** isValidIsbn13's conversion loop: the numeric values of the thirteen code units, in a new
      int[13]; `allDigits` is false when the loop stops at a code unit that is not a decimal digit. */
  method DigitValues(k: CharClassifier, characters: JString) returns (numbers: array<int>, allDigits: bool)
    requires |characters| == 13
    ensures fresh(numbers) && numbers.Length == 13
    ensures allDigits == ThirteenDigits(k, characters)
    ensures allDigits ==> numbers[..] == Values(k, characters)
  {
    numbers := new int[13];
    for i := 0 to 13
      invariant forall j | 0 <= j < i :: k.typeOf(characters[j]) == DecimalDigit
      invariant forall j | 0 <= j < i :: numbers[j] == k.numericValue(characters[j])
    {
      if k.typeOf(characters[i]) != DecimalDigit {
        return numbers, false;
      }
      numbers[i] := k.numericValue(characters[i]);
    }
    return numbers, true;
  }

  /** The ISBN-13 weight of position i (section 7 of ISO 2108, the EAN-13 rule): 1 at even
      positions, 3 at odd ones. */
  function Weight(i: nat): int {
    if i % 2 == 0 then 1 else 3
  }

  /** The weighted sum of the first `m` digits of `n`. */
  function WeightedSum(n: seq<int>, m: nat): int
    requires m <= |n|
  {
    if m == 0 then 0 else WeightedSum(n, m - 1) + Weight(m - 1) * n[m - 1]
  }

  /** With digits in 0..9, the code's comparison `checksum == numbers[12]` is the ISO 2108
      rule: the weighted sum of all thirteen digits is a multiple of 10. */
  lemma CheckDigitIsIsoRule(n: seq<int>)
    requires |n| == 13
    requires forall i | 0 <= i < 13 :: 0 <= n[i] <= 9
    ensures CheckDigit(n) == n[12] <==> WeightedSum(n, 13) % 10 == 0
  {
    var even := n[0] + n[2] + n[4] + n[6] + n[8] + n[10];
    var odd := n[1] + n[3] + n[5] + n[7] + n[9] + n[11];
    // one unfolding of WeightedSum per position
    assert WeightedSum(n, 1) == n[0];
    assert WeightedSum(n, 2) == n[0] + 3 * n[1];
    assert WeightedSum(n, 3) == n[0] + n[2] + 3 * n[1];
    assert WeightedSum(n, 4) == n[0] + n[2] + 3 * (n[1] + n[3]);
    assert WeightedSum(n, 5) == n[0] + n[2] + n[4] + 3 * (n[1] + n[3]);
    assert WeightedSum(n, 6) == n[0] + n[2] + n[4] + 3 * (n[1] + n[3] + n[5]);
    assert WeightedSum(n, 7) == n[0] + n[2] + n[4] + n[6] + 3 * (n[1] + n[3] + n[5]);
    assert WeightedSum(n, 8) == n[0] + n[2] + n[4] + n[6] + 3 * (n[1] + n[3] + n[5] + n[7]);
    assert WeightedSum(n, 9) == n[0] + n[2] + n[4] + n[6] + n[8] + 3 * (n[1] + n[3] + n[5] + n[7]);
    assert WeightedSum(n, 10) == n[0] + n[2] + n[4] + n[6] + n[8] + 3 * (n[1] + n[3] + n[5] + n[7] + n[9]);
    assert WeightedSum(n, 11) == even + 3 * (n[1] + n[3] + n[5] + n[7] + n[9]);
    assert WeightedSum(n, 12) == even + 3 * odd;
    assert WeightedSum(n, 13) == even + 3 * odd + n[12];
    CheckDigitArithmetic(even + 3 * odd, n[12]);
  }

  /** Under a sound classifier, isValidIsbn13 accepts exactly the strings that are thirteen
      decimal digits after separator removal and satisfy the ISO 2108 weighted-sum rule. */
  lemma ValidIsbn13IsIsoRule(k: CharClassifier, isbn: Nullable<JString>)
    requires Sound(k)
    ensures ValidIsbn13(k, isbn) <==>
      && isbn.Ref?
      && ThirteenDigits(k, Filter(isbn.value, Significant(k)))
      && WeightedSum(Values(k, Filter(isbn.value, Significant(k))), 13) % 10 == 0
  {
    if isbn.Ref? {
      var d := Filter(isbn.value, Significant(k));
      if ThirteenDigits(k, d) {
        CheckDigitIsIsoRule(Values(k, d));
      }
    }
  }

  /** For a non-negative sum s and a digit d: d is the complement of s modulo 10 exactly when
      s + d is a multiple of 10. */
  lemma CheckDigitArithmetic(s: int, d: int)
    requires s >= 0 && 0 <= d <= 9
    ensures JavaRem(10 - JavaRem(s, 10), 10) == d <==> (s + d) % 10 == 0
  {
    var r := s % 10;
    assert s == 10 * (s / 10) + r;
    assert (s + d) % 10 == (r + d) % 10;
  }

  /** A separator inserted anywhere is removed again by removeBlanksAndHyphens. */
  lemma SeparatorIsDropped(k: CharClassifier, a: JString, b: JString, sep: CodeUnit)
    requires k.typeOf(sep) == SpaceSeparator || k.typeOf(sep) == DashPunctuation
    ensures Filter(a + [sep] + b, Significant(k)) == Filter(a + b, Significant(k))
  {
    FilterAppend(a + [sep], b, Significant(k));
    FilterAppend(a, [sep], Significant(k));
    FilterAppend(a, b, Significant(k));
    assert [sep][..0] == [];
  }

  /** Space separators and dashes may be inserted anywhere without changing the verdict. */
  lemma SeparatorsAreIgnored(k: CharClassifier, a: JString, b: JString, sep: CodeUnit)
    requires k.typeOf(sep) == SpaceSeparator || k.typeOf(sep) == DashPunctuation
    ensures ValidIsbn13(k, Ref(a + [sep] + b)) == ValidIsbn13(k, Ref(a + b))
  {
    SeparatorIsDropped(k, a, b, sep);
  }

  /** `s` with `sep` between every two of its code units. */
  function Interleave(s: JString, sep: CodeUnit): (r: JString)
    ensures |s| > 0 ==> |r| == 2 * |s| - 1
  {
    if |s| <= 1 then s else [s[0], sep] + Interleave(s[1..], sep)
  }

  /** The code units of an interleaved string: the input's at even positions, the separator at
      odd ones. */
  lemma {:induction false} InterleaveAt(s: JString, sep: CodeUnit, i: int)
    requires 0 <= i < 2 * |s| - 1
    ensures Interleave(s, sep)[i] == if i % 2 == 0 then s[i / 2] else sep
  {
    if i >= 2 {
      InterleaveAt(s[1..], sep, i - 2);
    }
  }

  /** A separator between every two code units is removed by removeBlanksAndHyphens. */
  lemma {:induction false} SeparatorsEverywhereAreDropped(k: CharClassifier, s: JString, sep: CodeUnit)
    requires k.typeOf(sep) == SpaceSeparator || k.typeOf(sep) == DashPunctuation
    ensures Filter(Interleave(s, sep), Significant(k)) == Filter(s, Significant(k))
  {
    if |s| > 1 {
      var head, rest := [s[0]], Interleave(s[1..], sep);
      SeparatorsEverywhereAreDropped(k, s[1..], sep);
      assert Interleave(s, sep) == (head + [sep]) + rest;
      FilterAppend(head + [sep], rest, Significant(k));
      SeparatorIsDropped(k, head, [], sep);
      assert head + [sep] + [] == head + [sep] && head + [] == head;
      assert s == head + s[1..];
      FilterAppend(head, s[1..], Significant(k));
    }
  }

  /** So an ISBN-13 written with a space or a dash between all its digits is judged like the
      bare digits. */
  lemma SeparatorsEverywhereAreIgnored(k: CharClassifier, s: JString, sep: CodeUnit)
    requires k.typeOf(sep) == SpaceSeparator || k.typeOf(sep) == DashPunctuation
    ensures ValidIsbn13(k, Ref(Interleave(s, sep))) == ValidIsbn13(k, Ref(s))
  {
    SeparatorsEverywhereAreDropped(k, s, sep);
  }

  /** Removing separators first does not change the verdict. */
  lemma SeparatorFreeFormIsEquivalent(k: CharClassifier, s: JString)
    ensures ValidIsbn13(k, Ref(Filter(s, Significant(k)))) == ValidIsbn13(k, Ref(s))
  {
    FilterIdempotent(s, Significant(k));
  }

  /** For a fixed prefix, every significant final code unit (neither a space separator nor a
      dash) that validates has the same numeric value; under a sound classifier, at most one
      significant final ASCII character validates. */
  lemma CheckDigitIsUnique(k: CharClassifier, prefix: JString, c1: CodeUnit, c2: CodeUnit)
    requires Significant(k)(c1) && Significant(k)(c2)
    requires ValidIsbn13(k, Ref(prefix + [c1])) && ValidIsbn13(k, Ref(prefix + [c2]))
    ensures k.numericValue(c1) == k.numericValue(c2)
    ensures Sound(k) && c1 < 0x80 && c2 < 0x80 ==> c1 == c2
  {
    var p := Filter(prefix, Significant(k));
    SignificantAppended(k, prefix, c1);
    SignificantAppended(k, prefix, c2);
    var n1, n2 := Values(k, p + [c1]), Values(k, p + [c2]);
    assert forall i | 0 <= i < 12 :: n1[i] == n2[i];
    assert CheckDigit(n1) == CheckDigit(n2);
    if Sound(k) && c1 < 0x80 && c2 < 0x80 {
      SameAsciiDigit(k, c1, c2);
    }
  }

  /** A significant code unit appended to a string is appended to what survives the filter. */
  lemma SignificantAppended(k: CharClassifier, s: JString, c: CodeUnit)
    requires Significant(k)(c)
    ensures Filter(s + [c], Significant(k)) == Filter(s, Significant(k)) + [c]
  {
    FilterAppend(s, [c], Significant(k));
    FilterCons(c, [], Significant(k));
  }

  /** Two ASCII decimal digits with the same numeric value are the same digit. */
  lemma SameAsciiDigit(k: CharClassifier, c1: CodeUnit, c2: CodeUnit)
    requires Sound(k) && c1 < 0x80 && c2 < 0x80
    requires k.typeOf(c1) == DecimalDigit && k.typeOf(c2) == DecimalDigit
    requires k.numericValue(c1) == k.numericValue(c2)
    ensures c1 == c2
  {
    assert AsciiCategory(c1) == DecimalDigit && AsciiCategory(c2) == DecimalDigit;
  }

  // ---------------------------------------------------------------------------------------
  // join (documented contract; the Java body is a stub)

  /** ',' */
  const COMMA: CodeUnit := 0x2C

  /** "(null)", the text join uses for a null element. */
  const NULL_TEXT: JString := [0x28, 0x6E, 0x75, 0x6C, 0x6C, 0x29]

  /** One element of join: the string itself, or "(null)". */
  function Render(e: Nullable<JString>): (r: JString)
    ensures e.Ref? ==> r == e.value
    ensures e.Null? ==> |r| == 6 && COMMA !in r
  {
    if e.Null? then NULL_TEXT else e.value
  }

  /** The elements rendered and separated by single commas, without a leading or trailing one. */
  function JoinElements(es: seq<Nullable<JString>>): (r: JString)
    requires |es| > 0
    ensures |r| >= |es| - 1
  {
    if |es| == 1 then Render(es[0]) else Render(es[0]) + [COMMA] + JoinElements(es[1..])
  }

  /** join as its documentation and tests describe it: a null array gives "(null)", no elements
      raise IllegalArgumentException, otherwise the rendered elements joined by commas. */
  function Join(elements: Nullable<seq<Nullable<JString>>>): (r: Result<JString>)
    ensures r.Failure? <==> elements == Ref([])
    ensures r.Failure? ==> r.error == IllegalArgumentException
    ensures elements.Null? ==> r == Success(NULL_TEXT)
    ensures elements.Ref? && |elements.value| == 1 ==> r == Success(Render(elements.value[0]))
  {
    match elements
    case Null => Success(NULL_TEXT)
    case Ref(es) => if es == [] then Failure(IllegalArgumentException) else Success(JoinElements(es))
  }

  /** The Java body of join as written: it returns null whatever it is given. */
  function JoinAsWritten(elements: Nullable<seq<Nullable<JString>>>): (r: Nullable<JString>)
    ensures r == Null
  {
    Null
  }

  /** Joining a concatenation is joining both halves around one comma. */
  lemma {:induction false} JoinAppend(a: seq<Nullable<JString>>, b: seq<Nullable<JString>>)
    requires |a| > 0 && |b| > 0
    ensures JoinElements(a + b) == JoinElements(a) + [COMMA] + JoinElements(b)
    decreases |a|
  {
    if |a| == 1 {
      assert (a + b)[1..] == b;
    } else {
      assert (a + b)[1..] == a[1..] + b;
      JoinAppend(a[1..], b);
    }
  }

  /** The rendered elements, in order. */
  function RenderAll(es: seq<Nullable<JString>>): (r: seq<JString>)
    ensures |r| == |es|
    ensures forall i | 0 <= i < |es| :: r[i] == Render(es[i])
  {
    seq(|es|, i requires 0 <= i < |es| => Render(es[i]))
  }

  /** The inverse of joining: the pieces of `s` between commas. */
  function SplitAtCommas(s: JString): (parts: seq<JString>)
    ensures |parts| > 0
  {
    if s == [] then [[]]
    else
      var rest := SplitAtCommas(s[1..]);
      if s[0] == COMMA then [[]] + rest else [[s[0]] + rest[0]] + rest[1..]
  }

  /** Splitting a comma-free piece followed by a comma and more text. */
  lemma {:induction false} SplitPiece(e: JString, t: JString)
    requires COMMA !in e
    ensures SplitAtCommas(e + [COMMA] + t) == [e] + SplitAtCommas(t)
    ensures SplitAtCommas(e) == [e]
  {
    if e == [] {
      assert [] + [COMMA] + t == [COMMA] + t;
      assert ([COMMA] + t)[1..] == t;
    } else {
      assert (e + [COMMA] + t)[1..] == e[1..] + [COMMA] + t;
      SplitPiece(e[1..], t);
      assert [e[0]] + e[1..] == e;
    }
  }

  /** Round trip: when no rendered element contains a comma, splitting the joined string at its
      commas gives back the rendered elements. */
  lemma {:induction false} JoinThenSplit(es: seq<Nullable<JString>>)
    requires |es| > 0
    requires forall i | 0 <= i < |es| :: COMMA !in Render(es[i])
    ensures SplitAtCommas(JoinElements(es)) == RenderAll(es)
  {
    var head := Render(es[0]);
    if |es| == 1 {
      SplitPiece(head, []);
      assert RenderAll(es) == [head];
    } else {
      var tail := es[1..];
      assert forall i | 0 <= i < |tail| :: tail[i] == es[i + 1];
      JoinThenSplit(tail);
      assert JoinElements(es) == head + [COMMA] + JoinElements(tail);
      SplitPiece(head, JoinElements(tail));
      assert RenderAll(es) == [head] + RenderAll(tail);
    }
  }

  /** The joined string is as long as the rendered elements together plus one comma between
      each two of them. */
  lemma {:induction false} JoinLength(es: seq<Nullable<JString>>)
    requires |es| > 0
    ensures |JoinElements(es)| == TotalLength(RenderAll(es)) + |es| - 1
  {
    if |es| > 1 {
      JoinLength(es[1..]);
      assert RenderAll(es) == [Render(es[0])] + RenderAll(es[1..]);
    } else {
      assert RenderAll(es) == [Render(es[0])];
    }
  }

  /** The sum of the lengths of some strings. */
  function TotalLength(ss: seq<JString>): nat {
    if ss == [] then 0 else |ss[0]| + TotalLength(ss[1..])
  }

  // ---------------------------------------------------------------------------------------
  // isValidISBN10 (documented contract; the Java body returns false)

  /** 'X', the check symbol of value 10. */
  const CHECK_TEN: CodeUnit := 0x58

  /** The value of the tenth significant character: a digit, or 'X' for 10. */
  function CheckSymbolValue(k: CharClassifier, u: CodeUnit): int {
    if u == CHECK_TEN then 10 else k.numericValue(u)
  }

  /** The ISBN-10 rule of ISO 2108 that the documentation and the tests of isValidISBN10 ask
      for: ten significant characters once space separators and dashes are removed, nine
      decimal digits and a digit or 'X', and a weighted sum (weights 10 down to 1) divisible
      by 11. */
  ghost function ValidIsbn10(k: CharClassifier, isbn: Nullable<JString>): (valid: bool)
    ensures valid ==> isbn.Ref? && |isbn.value| >= 10
  {
    && isbn.Ref?
    && var d := Filter(isbn.value, Significant(k));
    && |d| == 10
    && (forall i | 0 <= i < 9 :: k.typeOf(d[i]) == DecimalDigit)
    && (k.typeOf(d[9]) == DecimalDigit || d[9] == CHECK_TEN)
    && Isbn10Sum(Values(k, d[..9]) + [CheckSymbolValue(k, d[9])]) % 11 == 0
  }

  /** The ISBN-10 weighted sum: weights 10 down to 1. */
  function Isbn10Sum(n: seq<int>): int
    requires |n| == 10
  {
    10 * n[0] + 9 * n[1] + 8 * n[2] + 7 * n[3] + 6 * n[4] + 5 * n[5] + 4 * n[6] + 3 * n[7] + 2 * n[8] + n[9]
  }

  /** The Java body of isValidISBN10 as written: every input is rejected. */
  function IsValidIsbn10AsWritten(isbn: Nullable<JString>): (valid: bool)
    ensures !valid
  {
    false
  }

  /** Like ISBN-13, the documented ISBN-10 rule ignores space separators and dashes. */
  lemma Isbn10SeparatorsAreIgnored(k: CharClassifier, a: JString, b: JString, sep: CodeUnit)
    requires k.typeOf(sep) == SpaceSeparator || k.typeOf(sep) == DashPunctuation
    ensures ValidIsbn10(k, Ref(a + [sep] + b)) == ValidIsbn10(k, Ref(a + b))
  {
    SeparatorIsDropped(k, a, b, sep);
  }
}
