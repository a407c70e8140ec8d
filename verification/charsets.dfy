/** The four character classes of src/password/mod.rs: their generation
    alphabets, the ASCII tests used to recognise them, their entropy weights,
    and the flags that enable them. */
module Charsets {

  /** The classes, declared in the order the program always visits them. */
  datatype CharClass = Upper | Lower | Number | Special

  /** Position of a class in the fixed visiting order. */
  function Rank(c: CharClass): nat
  {
    match c
    case Upper => 0
    case Lower => 1
    case Number => 2
    case Special => 3
  }

  const UPPERCASE: string := "ABCDEFGHIJKLMNOPQRSTUVWXYZ"
  const LOWERCASE: string := "abcdefghijklmnopqrstuvwxyz"
  const NUMBERS: string := "0123456789"
  /** Note: 26 characters, although the entropy weight of the class is 32. */
  const SPECIAL: string := "!@#$%^&*()-_=+[]{}|;:,.<>?"

  /** The generation alphabet of a class. */
  function Alphabet(c: CharClass): string
  {
    match c
    case Upper => UPPERCASE
    case Lower => LOWERCASE
    case Number => NUMBERS
    case Special => SPECIAL
  }

  predicate IsAscii(ch: char) { ch as int < 128 }
  predicate IsAsciiUpper(ch: char) { 'A' <= ch <= 'Z' }
  predicate IsAsciiLower(ch: char) { 'a' <= ch <= 'z' }
  predicate IsAsciiDigit(ch: char) { '0' <= ch <= '9' }
  predicate IsAsciiAlphanumeric(ch: char) { IsAsciiUpper(ch) || IsAsciiLower(ch) || IsAsciiDigit(ch) }

  /** The if/else-if chain of `get_charset_size`: every character falls into
      exactly one class, and anything that is not an ASCII letter or digit
      (non-ASCII letters included) counts as special. */
  function Classify(ch: char): (c: CharClass)
    ensures c == Upper <==> IsAsciiUpper(ch)
    ensures c == Lower <==> IsAsciiLower(ch)
    ensures c == Number <==> IsAsciiDigit(ch)
    ensures c == Special <==> !IsAsciiAlphanumeric(ch)
  {
    if IsAsciiUpper(ch) then Upper
    else if IsAsciiLower(ch) then Lower
    else if IsAsciiDigit(ch) then Number
    else Special
  }

  /** Every character of a class's alphabet is classified as that class, so the
      alphabets are pairwise disjoint and ASCII. */
  lemma AlphabetClassified(c: CharClass, ch: char)
    requires ch in Alphabet(c)
    ensures Classify(ch) == c
    ensures IsAscii(ch)
  {
    match c
    case Upper => assert ch in UPPERCASE;
    case Lower => assert ch in LOWERCASE;
    case Number => assert ch in NUMBERS;
    case Special => SpecialIsPunctuation(ch);
  }

  /** The special alphabet holds only ASCII punctuation. */
  lemma SpecialIsPunctuation(ch: char)
    requires ch in SPECIAL
    ensures IsAscii(ch) && !IsAsciiAlphanumeric(ch)
  {
  }

  /** Some character of `pw` is classified as `c`. */
  predicate HasClass(pw: string, c: CharClass)
  {
    exists ch :: ch in pw && Classify(ch) == c
  }

  /** The entropy weight of a class (its nominal alphabet size). */
  function Weight(c: CharClass): nat
  {
    match c
    case Upper => 26
    case Lower => 26
    case Number => 10
    case Special => 32
  }

  /** The four boolean switches `uppercase`, `lowercase`, `numbers`, `special`. */
  datatype Flags = Flags(upper: bool, lower: bool, numbers: bool, special: bool) {

    predicate Enabled(c: CharClass)
    {
      match c
      case Upper => upper
      case Lower => lower
      case Number => numbers
      case Special => special
    }

    predicate AnyEnabled()
    {
      upper || lower || numbers || special
    }
  }

  /** The `charsets` list of `generate_secure_password`: the enabled classes,
      each once, in the order Upper, Lower, Number, Special. */
  function EnabledClasses(f: Flags): (cs: seq<CharClass>)
    ensures forall c :: c in cs <==> f.Enabled(c)
    ensures |cs| <= 4
    ensures cs == [] <==> !f.AnyEnabled()
  {
    (if f.upper then [Upper] else [])
    + (if f.lower then [Lower] else [])
    + (if f.numbers then [Number] else [])
    + (if f.special then [Special] else [])
  }

  /** Any selection of the four classes, taken in the fixed order, is
      strictly increasing in rank. */
  lemma SelectionOrdered(u: seq<CharClass>, l: seq<CharClass>, n: seq<CharClass>, s: seq<CharClass>)
    requires u == [] || u == [Upper]
    requires l == [] || l == [Lower]
    requires n == [] || n == [Number]
    requires s == [] || s == [Special]
    ensures var m := u + l + n + s;
      forall i, j :: 0 <= i < j < |m| ==> Rank(m[i]) < Rank(m[j])
  {
  }

  /** The classes are listed in the fixed order Upper, Lower, Number,
      Special. */
  lemma EnabledClassesOrdered(f: Flags)
    ensures var cs := EnabledClasses(f);
      forall i, j :: 0 <= i < j < |cs| ==> Rank(cs[i]) < Rank(cs[j])
  {
    SelectionOrdered(
      if f.upper then [Upper] else [],
      if f.lower then [Lower] else [],
      if f.numbers then [Number] else [],
      if f.special then [Special] else []);
  }

  /** Strictly increasing rank means no class is listed twice. */
  lemma EnabledClassesDistinct(f: Flags, i: int, j: int)
    requires 0 <= i < |EnabledClasses(f)| && 0 <= j < |EnabledClasses(f)| && i != j
    ensures EnabledClasses(f)[i] != EnabledClasses(f)[j]
  {
    var cs := EnabledClasses(f);
    EnabledClassesOrdered(f);
    if i < j {
      assert Rank(cs[i]) < Rank(cs[j]);
    } else {
      assert Rank(cs[j]) < Rank(cs[i]);
    }
  }
}
