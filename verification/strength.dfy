/** `PasswordStrength` (src/password/password_strength.rs): five ordered
    tiers, the entropy a tier asks for, the band an entropy is reported in,
    and the text shown for a tier. */
module Strength {

  /** Declared weakest first; the derived `Ord` follows this order. */
  datatype PasswordStrength = Weak | Moderate | Strong | VeryStrong | Extreme

  /** Position in declaration order, which is what the derived `Ord` compares. */
  function Level(s: PasswordStrength): nat
  {
    match s
    case Weak => 0
    case Moderate => 1
    case Strong => 2
    case VeryStrong => 3
    case Extreme => 4
  }

  /** `min_entropy`: the entropy a requested tier demands. */
  function MinEntropy(s: PasswordStrength): real
  {
    match s
    case Weak => 30.0
    case Moderate => 50.0
    case Strong => 70.0
    case VeryStrong => 90.0
    case Extreme => 120.0
  }

  /** The smallest truncated entropy reported in each tier's band. */
  function BandStart(s: PasswordStrength): nat
  {
    match s
    case Weak => 0
    case Moderate => 46
    case Strong => 61
    case VeryStrong => 81
    case Extreme => 101
  }

  /** `from_entropy` after the cast: the match on 0..=45, 46..=60, 61..=80,
      81..=100 and everything above. The tier is the highest one whose band
      starts at or below `n`. */
  function FromEntropy(n: nat): (r: PasswordStrength)
    ensures BandStart(r) <= n
    ensures forall t :: BandStart(t) <= n ==> Level(t) <= Level(r)
  {
    if n <= 45 then Weak
    else if n <= 60 then Moderate
    else if n <= 80 then Strong
    else if n <= 100 then VeryStrong
    else Extreme
  }

  const USIZE_MAX: nat := 0xFFFF_FFFF_FFFF_FFFF

  /** Rust's saturating `f64 as usize`: negatives go to 0, fractions are cut
      off, values beyond the range go to `usize::MAX`. */
  function AsUsize(e: real): (n: nat)
    ensures n <= USIZE_MAX
    ensures 0.0 <= e ==> n as real <= e
    ensures 0.0 <= e && e < USIZE_MAX as real ==> e < n as real + 1.0
    ensures e < 1.0 ==> n == 0
    ensures USIZE_MAX as real <= e ==> n == USIZE_MAX
  {
    if e < 0.0 then 0
    else if e.Floor > USIZE_MAX then USIZE_MAX
    else e.Floor
  }

  /** The tier printed for a computed entropy. */
  function TierOf(e: real): (r: PasswordStrength)
    ensures r == Weak || BandStart(r) as real <= e
    ensures forall t :: BandStart(t) as real <= e ==> Level(t) <= Level(r)
  {
    FromEntropy(AsUsize(e))
  }

  /** `description`: the text shown for each tier. */
  function Description(s: PasswordStrength): string
  {
    match s
    case Weak => "Weak - easily crackable"
    case Moderate => "Moderate - acceptable for non-critical accounts"
    case Strong => "Strong - good for most purposes"
    case VeryStrong => "Very strong - suitable for sensitive accounts"
    case Extreme => "Extremely strong - suitable for high-security applications"
  }

  /** Each band, stated as an interval of truncated entropy. */
  lemma FromEntropyBands(n: nat)
    ensures FromEntropy(n) == Weak <==> n <= 45
    ensures FromEntropy(n) == Moderate <==> 46 <= n <= 60
    ensures FromEntropy(n) == Strong <==> 61 <= n <= 80
    ensures FromEntropy(n) == VeryStrong <==> 81 <= n <= 100
    ensures FromEntropy(n) == Extreme <==> 100 < n
  {
  }

  /** The band edges, on both sides. */
  lemma FromEntropyBoundaries()
    ensures FromEntropy(45) == Weak && FromEntropy(46) == Moderate
    ensures FromEntropy(60) == Moderate && FromEntropy(61) == Strong
    ensures FromEntropy(80) == Strong && FromEntropy(81) == VeryStrong
    ensures FromEntropy(100) == VeryStrong && FromEntropy(101) == Extreme
  {
  }

  /** More entropy never yields a lower tier. */
  lemma {:induction false} FromEntropyMonotone(a: nat, b: nat)
    requires a <= b
    ensures Level(FromEntropy(a)) <= Level(FromEntropy(b))
  {
    var ra := FromEntropy(a);
    assert BandStart(ra) <= b;
  }

  /** The saturating cast is monotone. */
  lemma AsUsizeMonotone(a: real, b: real)
    requires a <= b
    ensures AsUsize(a) <= AsUsize(b)
  {
  }

  /** Monotone on real entropies too, and truncation happens before banding. */
  lemma {:induction false} TierOfMonotone(a: real, b: real)
    requires a <= b
    ensures Level(TierOf(a)) <= Level(TierOf(b))
  {
    AsUsizeMonotone(a, b);
    FromEntropyMonotone(AsUsize(a), AsUsize(b));
  }

  /** Truncation before banding: 45.9 is still Weak, 46.0 is Moderate. */
  lemma TierOfTruncates()
    ensures TierOf(45.0) == Weak && TierOf(45.9) == Weak && TierOf(46.0) == Moderate
    ensures TierOf(-3.5) == Weak
  {
  }

  /** Each tier asks for strictly more entropy than the tier below it. */
  lemma MinEntropyStrictlyIncreasing(a: PasswordStrength, b: PasswordStrength)
    requires Level(a) < Level(b)
    ensures MinEntropy(a) < MinEntropy(b)
  {
  }

  /** The entropy a tier asks for is reported back as that same tier. */
  lemma {:induction false} MinEntropyRoundTrip(t: PasswordStrength)
    ensures TierOf(MinEntropy(t)) == t
  {
    match t
    case Weak => assert AsUsize(30.0) == 30;
    case Moderate => assert AsUsize(50.0) == 50;
    case Strong => assert AsUsize(70.0) == 70;
    case VeryStrong => assert AsUsize(90.0) == 90;
    case Extreme => assert AsUsize(120.0) == 120;
  }

  /** Different tiers are described differently. */
  lemma DescriptionDistinct(a: PasswordStrength, b: PasswordStrength)
    requires a != b
    ensures Description(a) != Description(b)
    ensures |Description(a)| > 0
  {
  }
}
