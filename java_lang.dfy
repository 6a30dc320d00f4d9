/** The parts of the Java platform that StringUtils relies on: strings as UTF-16 code
    units, null references, IllegalArgumentException, Java's remainder operator and the
    Unicode general category of a char (Character.getType / Character.getNumericValue). */
module JavaLang {

  /** A Java `char`: one UTF-16 code unit. */
  newtype CodeUnit = x: int | 0 <= x < 0x1_0000

  /** The contents of a non-null java.lang.String: its code units, as `toCharArray` yields them. */
  type JString = seq<CodeUnit>

  /** A reference that may be `null`. */
  datatype Nullable<T> = Null | Ref(value: T)

  /** The only exception the core throws. */
  datatype Exception = IllegalArgumentException

  /** Either a returned value or a thrown exception. */
  datatype Result<T> = Success(value: T) | Failure(error: Exception)

  /** Java's `a % b` for a positive divisor: the remainder of truncating division, which has
      the sign of `a` (Dafny's own `%` is Euclidean and never negative). */
  function JavaRem(a: int, b: int): (r: int)
    requires b > 0
    ensures a >= 0 ==> r == a % b
    ensures -b < r < b
    ensures a >= 0 ==> r >= 0
    ensures a < 0 ==> r <= 0
    ensures (a - r) % b == 0
  {
    if a >= 0 then
      MultipleRem(a / b, b);
      a % b
    else
      assert -a == ((-a) / b) * b + (-a) % b;
      assert a - -((-a) % b) == (-((-a) / b)) * b;
      MultipleRem(-((-a) / b), b);
      -((-a) % b)
  }

  /** A multiple of `b` leaves no remainder. */
  lemma MultipleRem(q: int, b: int)
    requires b > 0
    ensures (q * b) % b == 0
  {
    var d, m := (q * b) / b, (q * b) % b;
    assert q * b == d * b + m;
    assert 0 <= m < b;
    assert q * b - d * b == (q - d) * b;
    if q - d > 0 {
      MultipleAtLeast(q - d, b);
    }
  }

  /** A positive multiple of `b` is at least `b`. */
  lemma MultipleAtLeast(e: int, b: int)
    requires e >= 1 && b > 0
    ensures e * b >= b
  {
    assert e * b == (e - 1) * b + b;
  }

  /** The Unicode general categories StringUtils distinguishes; every other category of
      Character.getType is folded into Other. */
  datatype Category = DecimalDigit | Uppercase | Lowercase | SpaceSeparator | DashPunctuation | Other

  /** Character.getType (collapsed to Category) and Character.getNumericValue. The JDK's
      Unicode tables are not part of this model, so the classifier is a parameter and
      `Sound` states what is known about it. */
  datatype CharClassifier = CharClassifier(typeOf: CodeUnit -> Category, numericValue: CodeUnit -> int)

  /** The general category of the ASCII code units, as the Unicode tables give it. */
  function AsciiCategory(u: CodeUnit): Category
    requires u < 0x80
  {
    if 0x30 <= u <= 0x39 then DecimalDigit        // '0'..'9'
    else if 0x41 <= u <= 0x5A then Uppercase      // 'A'..'Z'
    else if 0x61 <= u <= 0x7A then Lowercase      // 'a'..'z'
    else if u == 0x20 then SpaceSeparator         // ' '
    else if u == 0x2D then DashPunctuation        // '-'
    else Other                                    // controls, punctuation, symbols
  }

  /** What the model assumes of Character.getType and Character.getNumericValue: a decimal
      digit (category Nd) has a numeric value in 0..9; the ASCII code units have their
      Unicode categories; '0'..'9' have the values 0..9. */
  ghost predicate Sound(k: CharClassifier) {
    && (forall u :: k.typeOf(u) == DecimalDigit ==> 0 <= k.numericValue(u) <= 9)
    && (forall u :: u < 0x80 ==> k.typeOf(u) == AsciiCategory(u))
    && (forall u :: 0x30 <= u <= 0x39 ==> k.numericValue(u) == u as int - 0x30)
  }

  /** A classifier that knows only ASCII; it shows that `Sound` can be met. */
  function AsciiOnly(): (k: CharClassifier)
    ensures Sound(k)
  {
    CharClassifier(
      u => if u < 0x80 then AsciiCategory(u) else Other,
      u => if 0x30 <= u <= 0x39 then u as int - 0x30 else -1)
  }

  /** The code unit Java stores for a character of the Basic Multilingual Plane; any other
      character (none occurs in this model) is replaced by U+FFFD. */
  function CodeUnitOf(c: char): CodeUnit {
    if c as int < 0x1_0000 then c as int as CodeUnit else 0xFFFD
  }

  /** The code units of a string literal, one per character, as Java stores it when every
      character lies in the Basic Multilingual Plane. */
  function CodeUnits(s: string): (r: JString)
    ensures |r| == |s|
    ensures forall i | 0 <= i < |s| :: s[i] as int < 0x1_0000 ==> r[i] as int == s[i] as int
  {
    seq(|s|, i requires 0 <= i < |s| => CodeUnitOf(s[i]))
  }
}
