/** The body of `main` (src/main.rs) between argument parsing and printing:
    the strength merge, the length floor, the no-class rejection, the
    bounded retry loop and the final validation. Printing is reduced to
    which branch is taken. */
module MainFlow {
  import opened Optional
  import opened Charsets
  import opened Strength
  import Generator
  import Validation
  import Entropy

  const MIN_LENGTH: nat := 4
  const MAX_ATTEMPTS: nat := 10
  const LENGTH_STEP: nat := 2

  /** The parsed command line (`Cli`); its defaults are the parser's concern. */
  datatype Cli = Cli(
    length: nat,
    minEntropy: Option<real>,
    uppercase: bool,
    lowercase: bool,
    numbers: bool,
    special: bool,
    strength: Option<PasswordStrength>)

  /** What `main` ends with: the error exit, or the values it prints. */
  datatype Outcome =
    | NoCharacterClass
    | Report(
        password: string,
        entropy: real,
        minEntropy: real,
        attempts: nat,
        warned: bool,
        strength: PasswordStrength,
        validation: Validation.PasswordValidation)

  function FlagsOf(cli: Cli): Flags
  {
    Flags(cli.uppercase, cli.lowercase, cli.numbers, cli.special)
  }

  /** `f64::max` on non-NaN values. */
  function Max(a: real, b: real): real
  {
    if a < b then b else a
  }

  /** A requested strength raises the minimum entropy to that tier's floor;
      without one the minimum entropy is left as given. */
  function MergeStrength(minEntropy: Option<real>, strength: Option<PasswordStrength>): (m: Option<real>)
    ensures strength.None? ==> m == minEntropy
    ensures strength.Some? ==> m.Some?
    ensures strength.Some? ==> m.value >= minEntropy.UnwrapOr(0.0) && m.value >= MinEntropy(strength.value)
    ensures strength.Some? ==> m.value == minEntropy.UnwrapOr(0.0) || m.value == MinEntropy(strength.value)
  {
    match strength
    case None => minEntropy
    case Some(s) => Some(Max(minEntropy.UnwrapOr(0.0), MinEntropy(s)))
  }

  /** `max(length, 4)`. */
  function FloorLength(length: nat): (l: nat)
    ensures l >= MIN_LENGTH && l >= length
    ensures l == length || l == MIN_LENGTH
  {
    if length < MIN_LENGTH then MIN_LENGTH else length
  }

  /** Attempt i (counting from 0): generation at the starting length plus
      two per earlier attempt, with that attempt's randomness. */
  function Attempt(start: nat, f: Flags, rng: nat -> Generator.Oracle, i: nat): (g: Generator.Generation)
    ensures f.AnyEnabled() ==> g.Generated?
    ensures g.Generated? ==> |g.password| == start + 2 * i
  {
    Generator.Generate(start + 2 * i, f, rng(i))
  }

  /** `main` from the strength merge to the validation. Randomness is the
      oracle family `rng` (one oracle per attempt); `entropy` stands for
      `calc_entropy`, whose floating-point logarithm is not modelled;
      `alnum` stands for `char::is_alphanumeric`. */
  method Run(cli: Cli, rng: nat -> Generator.Oracle, entropy: string -> real, alnum: char -> bool)
    returns (out: Outcome)
    ensures out.NoCharacterClass? <==> !cli.uppercase && !cli.lowercase && !cli.numbers && !cli.special
    ensures out.Report? ==> out.minEntropy == MergeStrength(cli.minEntropy, cli.strength).UnwrapOr(0.0)
    ensures out.Report? ==> 1 <= out.attempts <= MAX_ATTEMPTS
    ensures out.Report? ==> Attempt(FloorLength(cli.length), FlagsOf(cli), rng, out.attempts - 1) == Generator.Generated(out.password)
    ensures out.Report? ==> |out.password| == FloorLength(cli.length) + 2 * (out.attempts - 1)
    ensures out.Report? ==> out.entropy == entropy(out.password)
    ensures out.Report? ==> forall i :: 0 <= i < out.attempts - 1 ==>
      entropy(Attempt(FloorLength(cli.length), FlagsOf(cli), rng, i).password) < out.minEntropy
    ensures out.Report? ==> out.entropy >= out.minEntropy || out.attempts == MAX_ATTEMPTS
    ensures out.Report? ==> (out.warned <==> out.entropy < out.minEntropy)
    ensures out.Report? ==> out.strength == TierOf(out.entropy)
    ensures out.Report? ==> out.validation == Validation.Validate(out.password, FlagsOf(cli), alnum)
    ensures out.Report? ==> Entropy.CharsetSize(out.password) == Entropy.EnabledWeight(FlagsOf(cli))
    ensures out.Report? && Validation.AgreesOnAscii(alnum) ==> out.validation == Validation.PasswordValidation(true, [])
  {
    hide Generator.Generate;
    hide Attempt;
    hide Validation.Validate;
    var minEntropyArg := MergeStrength(cli.minEntropy, cli.strength);
    var start := FloorLength(cli.length);
    var f := FlagsOf(cli);
    if !cli.uppercase && !cli.lowercase && !cli.numbers && !cli.special {
      return NoCharacterClass;
    }

    var password := "";
    var currentEntropy := minEntropyArg.UnwrapOr(0.0);
    var minEntropy := minEntropyArg.UnwrapOr(0.0);
    var length := start;
    var attempts := 0;
    while attempts < MAX_ATTEMPTS
      invariant 0 <= attempts <= MAX_ATTEMPTS
      invariant length == start + 2 * attempts
      invariant attempts > 0 ==> Attempt(start, f, rng, attempts - 1) == Generator.Generated(password)
      invariant attempts > 0 ==> currentEntropy == entropy(password)
      invariant forall k :: 0 <= k < attempts ==> entropy(Attempt(start, f, rng, k).password) < minEntropy
    {
      var generated := Generator.Generate(length, f, rng(attempts));
      AttemptAtLength(start, f, rng, attempts, length);
      password := generated.password;
      assert generated == Generator.Generated(password);
      currentEntropy := entropy(password);
      if currentEntropy >= minEntropy {
        attempts := attempts + 1;
        break;
      }
      assert entropy(Attempt(start, f, rng, attempts).password) < minEntropy;
      length := length + LENGTH_STEP;
      attempts := attempts + 1;
    }
    assert Attempt(start, f, rng, attempts - 1) == Generator.Generated(password);

    var warned := currentEntropy < minEntropy;
    var tier := TierOf(currentEntropy);
    var validation := Validation.Validate(password, f, alnum);
    AttemptCoversClasses(start, f, rng, attempts - 1, alnum);
    out := Report(password, currentEntropy, minEntropy, attempts, warned, tier, validation);
  }

  /** Since the length floor is at least the number of classes, every
      attempt contains exactly the enabled classes: its alphabet size is
      theirs, and it passes validation. */
  lemma AttemptCoversClasses(start: nat, f: Flags, rng: nat -> Generator.Oracle, i: nat, alnum: char -> bool)
    requires f.AnyEnabled() && start >= MIN_LENGTH
    ensures Attempt(start, f, rng, i).Generated?
    ensures |Attempt(start, f, rng, i).password| == start + 2 * i
    ensures Entropy.CharsetSize(Attempt(start, f, rng, i).password) == Entropy.EnabledWeight(f)
    ensures Validation.AgreesOnAscii(alnum) ==>
      Validation.Validate(Attempt(start, f, rng, i).password, f, alnum) == Validation.PasswordValidation(true, [])
  {
    hide Generator.Generate;
    var length := start + 2 * i;
    assert length >= |EnabledClasses(f)|;
    assert Attempt(start, f, rng, i) == Generator.Generate(length, f, rng(i));
    Entropy.GeneratedCharsetSize(length, f, rng(i));
    if Validation.AgreesOnAscii(alnum) {
      Validation.GeneratedPasswordValid(length, f, rng(i), alnum);
    }
  }

  /** With `calc_entropy` as the estimate and a positive per-character
      entropy, every retry is strictly stronger than the attempt before it:
      the loop only ever adds length to a fixed alphabet. */
  lemma {:induction false} AttemptEntropyIncreasing(start: nat, f: Flags, rng: nat -> Generator.Oracle, log2: nat -> real, i: nat, j: nat)
    requires f.AnyEnabled() && start >= MIN_LENGTH
    requires log2(Entropy.EnabledWeight(f)) > 0.0
    requires i < j
    ensures Attempt(start, f, rng, i).Generated? && Attempt(start, f, rng, j).Generated?
    ensures Entropy.CalcEntropy(Attempt(start, f, rng, i).password, log2)
      < Entropy.CalcEntropy(Attempt(start, f, rng, j).password, log2)
  {
    hide Generator.Generate;
    var w := log2(Entropy.EnabledWeight(f));
    var li, lj := start + 2 * i, start + 2 * j;
    AttemptAtLength(start, f, rng, i, li);
    AttemptAtLength(start, f, rng, j, lj);
    Entropy.GeneratedEntropy(li, f, rng(i), log2);
    Entropy.GeneratedEntropy(lj, f, rng(j), log2);
    assert w * (li as real) < w * (lj as real) by {
      assert w * (lj as real) - w * (li as real) == w * ((lj - li) as real);
    }
  }

  /** Unfolds `Attempt` at a length given as a variable, for proofs that
      hide its definition; it states nothing beyond that definition. */
  lemma AttemptAtLength(start: nat, f: Flags, rng: nat -> Generator.Oracle, i: nat, length: nat)
    requires length == start + 2 * i
    ensures Attempt(start, f, rng, i) == Generator.Generate(length, f, rng(i))
  {
  }
}
