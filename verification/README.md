# passwd — a Dafny model of the password pipeline

`passwd` is a command-line password generator. This project models its core:

- **Generation.** `generate_secure_password` builds a candidate in three
  steps. It draws one character from each enabled class (uppercase,
  lowercase, digits, specials), in that fixed order, while the password is
  shorter than the requested length. It fills the rest from the
  concatenation of the enabled alphabets. It then shuffles the result.
- **Validation.** `validate_password` checks a password for each requested
  class. It reports the missing ones by name, in the fixed order.
- **Alphabet size and entropy.** `get_charset_size` infers an alphabet size
  (26 + 26 + 10 + 32) from the classes a password actually contains.
  `calc_entropy` turns that size into bits.
- **Strength tiers.** `PasswordStrength` has five ordered tiers. Each tier
  has a minimum entropy, a band of truncated entropies that maps back to
  it, and a description.
- **The main loop.** `main` merges the requested strength into the
  entropy floor and raises the length to at least 4. It rejects a request
  that enables no class. It then retries generation up to 10 times,
  adding 2 to the length after each attempt that falls short. The last
  password is warned about, graded and validated.

Randomness is an oracle. `Generator.Oracle` supplies a number for each
draw and for each shuffle step. `Generator.Index` turns that number into a
position of the range: the number itself when it is in range, otherwise the
first position. Every property below therefore holds for every possible sequence of
random outcomes.

Modules, one file each:
- `optional.dfy`: `Option`.
- `charsets.dfy`: the classes, alphabets, ASCII tests, weights and flags.
- `generator.dfy`: generation.
- `validation.dfy`: validation.
- `entropy.dfy`: alphabet size and entropy.
- `strength.dfy`: the tiers.
- `main_flow.dfy`: the retry loop of `main`.

Main results:
- When the length is at least the number of enabled classes, a generated
  password contains a character of a class exactly when that class is
  enabled. It also passes validation with the same flags, and its alphabet
  size is exactly the weight of the enabled classes.
- When the length is shorter than that, exactly the first `length` enabled
  classes appear, and no others.
- Generation fails only when no class is enabled and the length is
  positive. Rust's `random_range(0..0)` panics in that case.
- `main` always reports after 1 to 10 attempts. The reported password is
  the output of the last attempt, at length `max(length, 4) + 2·(attempts−1)`.
  Every earlier attempt fell below the entropy floor. The warning is
  printed exactly when the final entropy is below the floor, and the
  validation always passes.

## Model

| member | source | states |
|---|---|---|
| `Charsets.Classify` | src/password/mod.rs:105-115 | every character falls in exactly one class; a class test holds exactly for the ASCII range of that class, and anything not an ASCII letter or digit is special |
| `Charsets.Alphabet` | src/password/mod.rs:5-8 | definition, no contract: the four generation alphabets, as written |
| `Charsets.AlphabetClassified` | src/password/mod.rs:5-8 | each generation alphabet holds only ASCII characters that are classified as its own class, so the four alphabets are disjoint |
| `Charsets.SpecialIsPunctuation` | src/password/mod.rs:8 | the special alphabet contains no ASCII letter or digit |
| `Charsets.Weight` | src/password/mod.rs:118-129 | definition, no contract: the entropy weights 26, 26, 10 and 32, as written |
| `Charsets.EnabledClasses` | src/password/mod.rs:22-34 | a class is listed exactly when its flag is on; at most four are listed; the list is empty exactly when no flag is on |
| `Charsets.SelectionOrdered` | src/password/mod.rs:22-34 | any selection of the four classes taken in the fixed order is strictly increasing in rank |
| `Charsets.EnabledClassesOrdered` | src/password/mod.rs:22-34 | the listed classes follow the fixed order uppercase, lowercase, numbers, special |
| `Charsets.EnabledClassesDistinct` | src/password/mod.rs:22-34 | no class is listed twice |
| `Generator.Index` | src/password/mod.rs:41 | the selected position always lies in `0..n`, and every position of the range is selected by its own value |
| `Generator.DrawReachesAll` | src/password/mod.rs:41-42 | the possible outcomes of a draw are exactly the characters of the alphabet |
| `Generator.Draw` | src/password/mod.rs:41-42 | a draw from a non-empty alphabet yields a character of that alphabet |
| `Generator.Pool` | src/password/mod.rs:47 | the combined alphabet is empty exactly when no class is enabled |
| `Generator.PoolMembers` | src/password/mod.rs:47 | a character is in the combined alphabet exactly when its class is enabled and it belongs to that class's alphabet |
| `Generator.SeedClasses` | src/password/mod.rs:39-44 | the seeding loop adds one character per enabled class, stopping at the requested length |
| `Generator.SeedClassesDraws` | src/password/mod.rs:39-44 | seeding keeps the prefix and puts at offset k a character of the k-th enabled class |
| `Generator.Fill` | src/password/mod.rs:50-53 | the fill loop brings the password to exactly the requested length and leaves a longer one untouched |
| `Generator.FillDraws` | src/password/mod.rs:50-53 | filling keeps the prefix and appends only characters of the combined alphabet |
| `Generator.Swap` | src/password/mod.rs:57 | one exchange keeps the length |
| `Generator.SwapPermutes` | src/password/mod.rs:57 | one exchange keeps the multiset of characters |
| `Generator.ShuffleFrom` | src/password/mod.rs:57 | a shuffle pass keeps the length |
| `Generator.Shuffle` | src/password/mod.rs:56-59 | the shuffle keeps the length |
| `Generator.ShuffleFromPermutes` | src/password/mod.rs:57 | each swap step, and so the whole pass, keeps the multiset of characters |
| `Generator.ShufflePermutes` | src/password/mod.rs:56-59 | the shuffled password is a permutation of its input: same multiset, same characters |
| `Generator.Unshuffled` | src/password/mod.rs:39-53 | definition, no contract: the seeded characters followed by the filler, failing when the filler must come from an empty pool |
| `Generator.Generate` | src/password/mod.rs:15-60 | generation fails exactly when no class is enabled and the length is positive; otherwise the password has exactly the requested length |
| `Generator.GenerateShufflesPool` | src/password/mod.rs:15-60 | the result is a permutation of the seeded-then-filled password, and every character comes from an enabled alphabet |
| `Generator.UnshuffledInPool` | src/password/mod.rs:39-53 | before the shuffle the password has the requested length and only combined-alphabet characters |
| `Generator.SeededPositions` | src/password/mod.rs:39-53 | before the shuffle, position k (below the number of seeded classes) holds a character of the k-th enabled class |
| `Generator.SeededClassesPresent` | src/password/mod.rs:39-59 | each of the first `min(length, classes)` enabled classes appears in the final password |
| `Generator.FullCoverage` | src/password/mod.rs:15-60 | when the length covers every enabled class, the password contains a class exactly when it is enabled |
| `Generator.ShortLengthCoverage` | src/password/mod.rs:39-53 | when the length is shorter than the number of enabled classes, exactly the first `length` of them appear |
| `Generator.ShortLengthClass` | src/password/mod.rs:39-53 | the short-length coverage result, for one class |
| `Generator.OnlySeededClasses` | src/password/mod.rs:50 | below the number of enabled classes nothing is filled in, so every character comes from a seeded class |
| `Validation.NameRankRoundTrip` | src/password/mod.rs:75-86 | each reported name reads back as its class, so no two classes share a name |
| `Validation.TypeName` | src/password/mod.rs:76-85 | definition, no contract: the names "uppercase", "lowercase", "number", "special character" |
| `Validation.Found` | src/password/mod.rs:69-72 | definition, no contract: the four `any` tests, with special meaning "not alphanumeric" |
| `Validation.MissingOne` | src/password/mod.rs:75-77 | definition: one `if check && !has { push }`, giving the class or nothing; its ensures only reads that back |
| `Validation.MissingClasses` | src/password/mod.rs:74-86 | a class is missing exactly when it is checked and not found; missing classes are listed in the fixed order |
| `Validation.Names` | src/password/mod.rs:74-86 | the names of an ordered class list name exactly those classes, in the same strictly increasing order |
| `Validation.Validate` | src/password/mod.rs:62-92 | valid exactly when nothing is missing and exactly when every checked class is found; a name is reported exactly when its class is checked and absent; names are distinct, in the fixed order, and at most four |
| `Validation.OrderedAtMostFour` | src/password/mod.rs:74-86 | a strictly ordered missing-class list has at most four entries |
| `Validation.FoundMatchesClassify` | src/password/mod.rs:69-72 | on ASCII text the validator's four tests agree with the classification that `get_charset_size` uses |
| `Validation.GeneratedPasswordValid` | src/main.rs:67-73 | a password generated with enough length passes validation with the same flags, with nothing missing |
| `Entropy.Observed` | src/password/mod.rs:105-115 | definition: the set of classes of the password's characters; its ensures only reads that set back |
| `Entropy.CharsetSize` | src/password/mod.rs:117-131 | definition, no contract: the reference alphabet size, the weights of the observed classes added up |
| `Entropy.GetCharsetSize` | src/password/mod.rs:99-132 | the single-pass flag loop computes the weighted sum of the classes present |
| `Entropy.ObservedSnoc` | src/password/mod.rs:105-115 | one more character adds exactly its own class to the observed set |
| `Entropy.CharsetSizeZeroIffEmpty` | src/password/mod.rs:117-131 | the alphabet size is zero exactly for the empty password |
| `Entropy.CharsetSizeAtMost94` | src/password/mod.rs:117-131 | the alphabet size never exceeds 94 |
| `Entropy.CharsetSizeOfSameCharacters` | src/password/mod.rs:99-132 | the alphabet size depends only on which characters occur |
| `Entropy.CharsetSizeShuffleInvariant` | src/password/mod.rs:56-59 | reordering a password, as the shuffle does, keeps its alphabet size |
| `Entropy.GeneratedCharsetSize` | src/password/mod.rs:15-60 | a generated password that covers every enabled class has exactly the weight of the enabled classes as alphabet size |
| `Entropy.CalcEntropy` | src/password/mod.rs:94-97 | definition, no contract: `log2` of the alphabet size times the length, with `log2` a parameter |
| `Entropy.GeneratedEntropy` | src/password/mod.rs:94-97 | the entropy of such a password depends only on the flags and the length |
| `Strength.FromEntropy` | src/password/password_strength.rs:23-31 | the tier is the highest one whose band starts at or below the truncated entropy |
| `Strength.Level` | src/password/password_strength.rs:3-10 | definition, no contract: the position in declaration order, which the derived `Ord` compares |
| `Strength.AsUsize` | src/password/password_strength.rs:24 | the saturating cast: below 1 gives 0, at or above `usize::MAX` gives exactly `usize::MAX`, and in between the whole part (never above the value, less than one below it) |
| `Strength.TierOf` | src/password/password_strength.rs:23-31 | `from_entropy` on a real entropy: the tier is the highest one whose band starts at or below the entropy (weak when none does) |
| `Strength.FromEntropyBands` | src/password/password_strength.rs:25-29 | each tier holds exactly for its interval 0..=45, 46..=60, 61..=80, 81..=100, above 100 |
| `Strength.FromEntropyBoundaries` | src/password/password_strength.rs:25-29 | both sides of every band edge land in the neighbouring tiers |
| `Strength.FromEntropyMonotone` | src/password/password_strength.rs:23-31 | more truncated entropy never gives a lower tier |
| `Strength.AsUsizeMonotone` | src/password/password_strength.rs:24 | the cast is monotone |
| `Strength.TierOfMonotone` | src/password/password_strength.rs:23-31 | more entropy never gives a lower tier |
| `Strength.TierOfTruncates` | src/password/password_strength.rs:24-26 | truncation comes before banding: 45.9 is weak, 46.0 is moderate, negatives are weak |
| `Strength.MinEntropyStrictlyIncreasing` | src/password/password_strength.rs:13-21 | a higher tier (in declaration order) asks for strictly more entropy |
| `Strength.MinEntropyRoundTrip` | src/password/password_strength.rs:13-31 | the minimum entropy of a tier is graded as that same tier |
| `Strength.MinEntropy` | src/password/password_strength.rs:13-21 | definition, no contract: 30, 50, 70, 90 and 120 bits |
| `Strength.DescriptionDistinct` | src/password/password_strength.rs:33-43 | different tiers have different, non-empty descriptions |
| `Strength.Description` | src/password/password_strength.rs:33-43 | definition, no contract: the five descriptions as written |
| `MainFlow.MergeStrength` | src/main.rs:16-19 | without a strength the floor is unchanged; with one it is the larger of the given floor (0 if absent) and that tier's minimum |
| `MainFlow.FloorLength` | src/main.rs:21 | the length is the larger of the requested length and 4 |
| `MainFlow.Attempt` | src/main.rs:32-46 | an attempt with some class enabled always yields a password, of length the starting length plus 2 per earlier attempt |
| `MainFlow.Run` | src/main.rs:13-73 | rejects exactly when no class is enabled; otherwise 1 to 10 attempts, the password is the last attempt's at length `max(length,4) + 2·(attempts−1)`, every earlier attempt fell short of the floor, the loop stops at the first attempt that meets it, the warning is raised exactly when the final entropy is short, the tier and validation are those of the final password, and validation passes |
| `MainFlow.AttemptCoversClasses` | src/main.rs:32-47 | every attempt succeeds at its length, has the enabled classes' alphabet size, and passes validation |
| `MainFlow.AttemptEntropyIncreasing` | src/main.rs:32-47 | with `calc_entropy` and a positive per-character entropy, each retry is strictly stronger than every earlier one |

## Left out

- Randomness: the model does not say the draws are uniform. Each draw is
  `Index(oracle value, n)`, which reaches every outcome of
  `random_range(0..n)` and no other.
- `Generator.ShuffleFrom`: the crate's exact sequence of draws during the
  shuffle is not modelled; only the permutation property is claimed.
- `Entropy.CalcEntropy`: `f64::log2` is a parameter `log2`. Floating-point
  rounding is not modelled.
- `Entropy.CalcEntropy`: for the empty password Rust computes
  `log2(0.0) * 0.0`, which is NaN; the model gives 0.0 for every `log2`.
  `main` never asks for it, since its length is at least 4.
- `Entropy.CalcEntropy`: uses the character count, while `password.len()`
  counts UTF-8 bytes. The two agree on the ASCII passwords the generator
  produces.
- `MainFlow.Run`: the entropy estimate is the parameter `entropy`, so the
  loop is proved for any estimator. `Entropy.GeneratedEntropy` and
  `MainFlow.AttemptEntropyIncreasing` connect it to `calc_entropy`.
- NaN and infinite entropies are not representable as `real`.
  `Strength.AsUsize` models Rust's saturating cast on the finite values.
- `char::is_alphanumeric` is Unicode-aware, so it is a parameter `alnum`.
  Results that need its value assume only `Validation.AgreesOnAscii`, that
  it matches ASCII letters and digits on ASCII input.
- `usize` overflow of `length + 2` after 10 attempts is not modelled.
  Lengths are unbounded naturals.
- Printing: the error message, the warning text, the `{:.2}` formatting and
  the `PASSED`/`FAILED` lines are not modelled. `Outcome` records which
  branch is taken and the values printed.
- Command-line parsing and its defaults (src/cli/types.rs) are not part of
  this model; `Cli` takes the parsed values.
- src/password/types.rs is not part of this model. It is not used by the
  pipeline.
- The special alphabet has 26 characters, yet its entropy weight is 32.
  Both constants are modelled as written.
