/** `validate_password` and `PasswordValidation` (src/password/mod.rs). */
module Validation {
  import opened Charsets
  import Generator

  datatype PasswordValidation = PasswordValidation(isValid: bool, missingTypes: seq<string>)

  /** The name under which a missing class is reported. */
  function TypeName(c: CharClass): string
  {
    match c
    case Upper => "uppercase"
    case Lower => "lowercase"
    case Number => "number"
    case Special => "special character"
  }

  /** The rank of the class a reported name stands for; 4 for any other text. */
  function NameRank(s: string): nat
  {
    if s == TypeName(Upper) then 0
    else if s == TypeName(Lower) then 1
    else if s == TypeName(Number) then 2
    else if s == TypeName(Special) then 3
    else 4
  }

  /** Reading a reported name back gives the class that was reported, so no
      two classes share a name. */
  lemma NameRankRoundTrip()
    ensures forall c :: NameRank(TypeName(c)) == Rank(c)
    ensures forall c, d :: TypeName(c) == TypeName(d) ==> c == d
  {
    forall c ensures NameRank(TypeName(c)) == Rank(c) {
      match c
      case Upper =>
      case Lower => assert TypeName(Upper)[0] != TypeName(Lower)[0];
      case Number =>
        assert TypeName(Upper)[0] != TypeName(Number)[0];
        assert TypeName(Lower)[0] != TypeName(Number)[0];
      case Special =>
        assert TypeName(Upper)[0] != TypeName(Special)[0];
        assert TypeName(Lower)[0] != TypeName(Special)[0];
        assert TypeName(Number)[0] != TypeName(Special)[0];
    }
  }

  /** `char::is_alphanumeric` is Unicode-aware, so it is a parameter here;
      all that is assumed of it is that on ASCII it means letter or digit. */
  ghost predicate AgreesOnAscii(alnum: char -> bool)
  {
    forall ch: char :: IsAscii(ch) ==> (alnum(ch) <==> IsAsciiAlphanumeric(ch))
  }

  /** The `any` test the validator applies for class `c`; special means "not
      alphanumeric", not "in the special alphabet". */
  predicate Found(pw: string, c: CharClass, alnum: char -> bool)
  {
    match c
    case Upper => exists ch :: ch in pw && IsAsciiUpper(ch)
    case Lower => exists ch :: ch in pw && IsAsciiLower(ch)
    case Number => exists ch :: ch in pw && IsAsciiDigit(ch)
    case Special => exists ch :: ch in pw && !alnum(ch)
  }

  /** One of the four `if`s that collect missing classes: `c` when it is
      checked and not found, nothing otherwise. */
  function MissingOne(pw: string, f: Flags, alnum: char -> bool, c: CharClass): (m: seq<CharClass>)
    ensures forall d :: d in m <==> d == c && f.Enabled(c) && !Found(pw, c, alnum)
    ensures m == [] || m == [c]
  {
    if f.Enabled(c) && !Found(pw, c, alnum) then [c] else []
  }

  /** The four `if`s that collect missing classes, in their fixed order. */
  function MissingClasses(pw: string, f: Flags, alnum: char -> bool): (m: seq<CharClass>)
    ensures forall c :: c in m <==> f.Enabled(c) && !Found(pw, c, alnum)
    ensures forall i, j :: 0 <= i < j < |m| ==> Rank(m[i]) < Rank(m[j])
  {
    var u := MissingOne(pw, f, alnum, Upper);
    var l := MissingOne(pw, f, alnum, Lower);
    var n := MissingOne(pw, f, alnum, Number);
    var s := MissingOne(pw, f, alnum, Special);
    var m := u + l + n + s;
    SelectionOrdered(u, l, n, s);
    assert forall c :: c in m <==> c in u || c in l || c in n || c in s;
    assert forall c :: c in m <==> f.Enabled(c) && !Found(pw, c, alnum) by {
      forall c
        ensures c in m <==> f.Enabled(c) && !Found(pw, c, alnum)
      {
        assert c == Upper || c == Lower || c == Number || c == Special;
      }
    }
    m
  }

  /** `validate_password(password, upper, lower, numbers, special)`. */
  function Validate(pw: string, f: Flags, alnum: char -> bool): (v: PasswordValidation)
    ensures v.isValid <==> v.missingTypes == []
    ensures v.isValid <==> forall c :: f.Enabled(c) ==> Found(pw, c, alnum)
    ensures forall c :: TypeName(c) in v.missingTypes <==> f.Enabled(c) && !Found(pw, c, alnum)
    ensures forall s :: s in v.missingTypes ==> NameRank(s) < 4
    ensures forall i, j :: 0 <= i < j < |v.missingTypes| ==> NameRank(v.missingTypes[i]) < NameRank(v.missingTypes[j])
    ensures |v.missingTypes| <= 4
  {
    var hasUpper := !f.upper || Found(pw, Upper, alnum);
    var hasLower := !f.lower || Found(pw, Lower, alnum);
    var hasNumber := !f.numbers || Found(pw, Number, alnum);
    var hasSpecial := !f.special || Found(pw, Special, alnum);
    var m := MissingClasses(pw, f, alnum);
    OrderedAtMostFour(m);
    PasswordValidation(hasUpper && hasLower && hasNumber && hasSpecial, Names(m))
  }

  /** The reported names of a rank-ordered list of classes. */
  function Names(m: seq<CharClass>): (ns: seq<string>)
    requires forall i, j :: 0 <= i < j < |m| ==> Rank(m[i]) < Rank(m[j])
    ensures |ns| == |m|
    ensures forall c :: TypeName(c) in ns <==> c in m
    ensures forall s :: s in ns ==> NameRank(s) < 4
    ensures forall i, j :: 0 <= i < j < |ns| ==> NameRank(ns[i]) < NameRank(ns[j])
  {
    NameRankRoundTrip();
    var ns := seq(|m|, i requires 0 <= i < |m| => TypeName(m[i]));
    assert forall c :: TypeName(c) in ns <==> c in m by {
      forall c
        ensures TypeName(c) in ns <==> c in m
      {
        if TypeName(c) in ns {
          var i :| 0 <= i < |ns| && ns[i] == TypeName(c);
          assert TypeName(m[i]) == TypeName(c);
        }
        if c in m {
          var i :| 0 <= i < |m| && m[i] == c;
          assert ns[i] == TypeName(c);
        }
      }
    }
    ns
  }

  /** A strictly rank-ordered list of classes has at most four entries. */
  lemma OrderedAtMostFour(m: seq<CharClass>)
    requires forall i, j :: 0 <= i < j < |m| ==> Rank(m[i]) < Rank(m[j])
    ensures |m| <= 4
  {
    if |m| > 4 {
      RankBoundsIndex(m, 4);
    }
  }

  /** In a strictly rank-ordered list each rank is at least its index. */
  lemma {:induction false} RankBoundsIndex(m: seq<CharClass>, i: nat)
    requires forall a, b :: 0 <= a < b < |m| ==> Rank(m[a]) < Rank(m[b])
    requires i < |m|
    ensures i <= Rank(m[i])
    decreases i
  {
    if i > 0 {
      RankBoundsIndex(m, i - 1);
    }
  }

  /** On ASCII text the validator's four tests coincide with the
      classification the entropy estimator uses. */
  lemma {:induction false} FoundMatchesClassify(pw: string, c: CharClass, alnum: char -> bool)
    requires AgreesOnAscii(alnum)
    requires forall k :: 0 <= k < |pw| ==> IsAscii(pw[k])
    ensures Found(pw, c, alnum) <==> HasClass(pw, c)
  {
    if Found(pw, c, alnum) {
      var ch :| ch in pw && Classify(ch) == c;
    }
    if HasClass(pw, c) {
      var ch :| ch in pw && Classify(ch) == c;
      assert IsAscii(ch);
    }
  }

  /** A generated password always passes validation with the flags it was
      generated with, provided `length` covers every enabled class. */
  lemma {:induction false} GeneratedPasswordValid(length: nat, f: Flags, rng: Generator.Oracle, alnum: char -> bool)
    requires f.AnyEnabled() && length >= |EnabledClasses(f)|
    requires AgreesOnAscii(alnum)
    ensures Generator.Generate(length, f, rng).Generated?
    ensures Validate(Generator.Generate(length, f, rng).password, f, alnum) == PasswordValidation(true, [])
  {
    var pw := Generator.Generate(length, f, rng).password;
    Generator.FullCoverage(length, f, rng);
    Generator.GenerateShufflesPool(length, f, rng);
    Generator.PoolMembers(EnabledClasses(f));
    forall c | f.Enabled(c)
      ensures Found(pw, c, alnum)
    {
      var ch :| ch in pw && Classify(ch) == c;
      assert ch in Alphabet(c);
      AlphabetClassified(c, ch);
    }
  }
}
