/** `get_charset_size` and `calc_entropy` (src/password/mod.rs): the alphabet
    size inferred from the classes a password actually contains. */
module Entropy {
  import opened Charsets
  import Generator

  /** The classes observed in a password. */
  function Observed(pw: string): (s: set<CharClass>)
    ensures forall c :: c in s <==> HasClass(pw, c)
  {
    set ch | ch in pw :: Classify(ch)
  }

  /** The weights of a set of classes, added up in the order of the source's
      four `if`s. */
  function WeightSum(s: set<CharClass>): nat
  {
    (if Upper in s then Weight(Upper) else 0)
    + (if Lower in s then Weight(Lower) else 0)
    + (if Number in s then Weight(Number) else 0)
    + (if Special in s then Weight(Special) else 0)
  }

  /** Reference definition of the alphabet size. */
  function CharsetSize(pw: string): nat
  {
    WeightSum(Observed(pw))
  }

  /** `get_charset_size`: one pass setting four flags, then the weighted sum. */
  method GetCharsetSize(pw: string) returns (size: nat)
    ensures size == CharsetSize(pw)
  {
    var hasUpper, hasLower, hasDigit, hasSpecial := false, false, false, false;
    var i := 0;
    while i < |pw|
      invariant 0 <= i <= |pw|
      invariant hasUpper <==> Upper in Observed(pw[..i])
      invariant hasLower <==> Lower in Observed(pw[..i])
      invariant hasDigit <==> Number in Observed(pw[..i])
      invariant hasSpecial <==> Special in Observed(pw[..i])
    {
      var ch := pw[i];
      if IsAsciiUpper(ch) {
        hasUpper := true;
      } else if IsAsciiLower(ch) {
        hasLower := true;
      } else if IsAsciiDigit(ch) {
        hasDigit := true;
      } else {
        hasSpecial := true;
      }
      ObservedSnoc(pw[..i], ch);
      assert pw[..i + 1] == pw[..i] + [ch];
      i := i + 1;
    }
    assert pw[..|pw|] == pw;
    size := 0;
    if hasUpper {
      size := size + 26;
    }
    if hasLower {
      size := size + 26;
    }
    if hasDigit {
      size := size + 10;
    }
    if hasSpecial {
      size := size + 32;
    }
  }

  /** Appending one character adds exactly its class. */
  lemma ObservedSnoc(pw: string, ch: char)
    ensures Observed(pw + [ch]) == Observed(pw) + {Classify(ch)}
  {
    assert forall x :: x in pw + [ch] <==> x in pw || x == ch;
  }

  /** The alphabet size is zero exactly for the empty password. */
  lemma {:induction false} CharsetSizeZeroIffEmpty(pw: string)
    ensures CharsetSize(pw) == 0 <==> |pw| == 0
  {
    if |pw| > 0 {
      assert Classify(pw[0]) in Observed(pw);
    }
  }

  /** The alphabet size never exceeds 26 + 26 + 10 + 32. */
  lemma CharsetSizeAtMost94(pw: string)
    ensures CharsetSize(pw) <= 94
  {
  }

  /** The alphabet size depends only on which characters occur. */
  lemma {:induction false} CharsetSizeOfSameCharacters(a: string, b: string)
    requires forall ch :: ch in a <==> ch in b
    ensures CharsetSize(a) == CharsetSize(b)
  {
    assert Observed(a) == Observed(b);
  }

  /** Reordering the characters (as the shuffle does) keeps the alphabet size. */
  lemma {:induction false} CharsetSizeShuffleInvariant(a: string, b: string)
    requires multiset(a) == multiset(b)
    ensures CharsetSize(a) == CharsetSize(b)
  {
    forall ch
      ensures ch in a <==> ch in b
    {
      assert ch in a <==> ch in multiset(a);
      assert ch in b <==> ch in multiset(b);
    }
    CharsetSizeOfSameCharacters(a, b);
  }

  /** The weights of the classes a set of flags enables. */
  function EnabledWeight(f: Flags): nat
  {
    WeightSum(set c | f.Enabled(c))
  }

  /** A generated password long enough to cover every enabled class has
      exactly the alphabet size of the enabled classes. */
  lemma {:induction false} GeneratedCharsetSize(length: nat, f: Flags, rng: Generator.Oracle)
    requires f.AnyEnabled() && length >= |EnabledClasses(f)|
    ensures Generator.Generate(length, f, rng).Generated?
    ensures CharsetSize(Generator.Generate(length, f, rng).password) == EnabledWeight(f)
  {
    var pw := Generator.Generate(length, f, rng).password;
    Generator.FullCoverage(length, f, rng);
    assert Observed(pw) == set c | f.Enabled(c);
  }

  /** `calc_entropy`: log2 of the alphabet size times the length. Floating
      point `log2` is left abstract as the parameter `log2`. */
  function CalcEntropy(pw: string, log2: nat -> real): real
  {
    log2(CharsetSize(pw)) * (|pw| as real)
  }

  /** The entropy of a generated password depends only on the flags and the
      length, not on the random outcomes. */
  lemma {:induction false} GeneratedEntropy(length: nat, f: Flags, rng: Generator.Oracle, log2: nat -> real)
    requires f.AnyEnabled() && length >= |EnabledClasses(f)|
    ensures Generator.Generate(length, f, rng).Generated?
    ensures CalcEntropy(Generator.Generate(length, f, rng).password, log2) == log2(EnabledWeight(f)) * (length as real)
  {
    hide Generator.Generate;
    GeneratedCharsetSize(length, f, rng);
    var pw := Generator.Generate(length, f, rng).password;
    assert |pw| == length;
    assert log2(CharsetSize(pw)) == log2(EnabledWeight(f));
  }
}
