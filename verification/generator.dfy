/** `generate_secure_password` (src/password/mod.rs), with the random source
    replaced by an oracle so that its structural guarantees can be stated for
    every sequence of random outcomes. */
module Generator {
  import opened Charsets

  /** The random source. `pick(k)` decides the k-th character drawn (seeding
      and filling share one counter); `swap(i)` decides the partner of
      position i during the shuffle. `Index` turns an oracle value into a
      position of a range, so every value of `random_range(0..n)` is
      reachable and no other. */
  datatype Oracle = Oracle(pick: nat -> nat, swap: nat -> nat)

  /** `random_range(0..n)` with n > 0 always succeeds; with n == 0 the Rust
      call panics, which is the only way generation can fail. */
  datatype Generation = Generated(password: string) | EmptyRange

  /** The position of `0..n` that oracle value d selects: d itself when it
      is in range, the first position otherwise. */
  function Index(d: nat, n: nat): (i: nat)
    requires n > 0
    ensures i < n
    ensures d < n ==> i == d
  {
    if d < n then d else 0
  }

  /** One draw from a non-empty alphabet. */
  function Draw(alphabet: string, d: nat): (ch: char)
    requires |alphabet| > 0
    ensures ch in alphabet
  {
    alphabet[Index(d, |alphabet|)]
  }

  /** Every character of an alphabet is the outcome of some draw, and every
      draw is a character of the alphabet. */
  lemma DrawReachesAll(alphabet: string, ch: char)
    requires |alphabet| > 0
    ensures ch in alphabet <==> exists d: nat :: Draw(alphabet, d) == ch
  {
    if ch in alphabet {
      var k :| 0 <= k < |alphabet| && alphabet[k] == ch;
      assert Draw(alphabet, k) == ch;
    }
  }

  function Min(a: nat, b: nat): nat { if a <= b then a else b }

  /** `charsets.concat()`: all enabled alphabets, one after another. */
  function Pool(cs: seq<CharClass>): (p: string)
    ensures |p| == 0 <==> cs == []
  {
    if cs == [] then [] else Alphabet(cs[0]) + Pool(cs[1..])
  }

  /** A character is in the pool exactly when it belongs to the alphabet of
      its own class and that class is listed. */
  lemma {:induction false} PoolMembers(cs: seq<CharClass>)
    ensures forall ch :: ch in Pool(cs) <==> Classify(ch) in cs && ch in Alphabet(Classify(ch))
  {
    if cs != [] {
      PoolMembers(cs[1..]);
      forall ch | ch in Alphabet(cs[0]) ensures Classify(ch) == cs[0] {
        AlphabetClassified(cs[0], ch);
      }
      assert forall c :: c in cs <==> c == cs[0] || c in cs[1..];
    }
  }

  /** The first loop: for each class in order, one character from its
      alphabet, as long as the password is still shorter than `length`.
      `pw` is the password built so far. */
  function SeedClasses(cs: seq<CharClass>, length: nat, pick: nat -> nat, pw: string): (r: string)
    decreases |cs|
    ensures |pw| < length ==> |r| == Min(length, |pw| + |cs|)
    ensures |pw| >= length ==> r == pw
    ensures |pw| <= |r|
  {
    if cs == [] then pw
    else if |pw| < length then
      SeedClasses(cs[1..], length, pick, pw + [Draw(Alphabet(cs[0]), pick(|pw|))])
    else
      SeedClasses(cs[1..], length, pick, pw)
  }

  /** The seeding loop keeps what was there and appends, at offset k, a
      character of the k-th listed class. */
  lemma {:induction false} SeedClassesDraws(cs: seq<CharClass>, length: nat, pick: nat -> nat, pw: string)
    ensures var r := SeedClasses(cs, length, pick, pw);
      r[..|pw|] == pw && forall k :: |pw| <= k < |r| ==> r[k] in Alphabet(cs[k - |pw|])
    decreases |cs|
  {
    var r := SeedClasses(cs, length, pick, pw);
    if cs == [] {
    } else if |pw| < length {
      var pw' := pw + [Draw(Alphabet(cs[0]), pick(|pw|))];
      SeedClassesDraws(cs[1..], length, pick, pw');
      assert r[..|pw|] == r[..|pw'|][..|pw|];
      assert r[|pw|] == r[..|pw'|][|pw|];
      forall k | |pw| <= k < |r|
        ensures r[k] in Alphabet(cs[k - |pw|])
      {
        if k > |pw| {
          assert cs[1..][k - |pw'|] == cs[k - |pw|];
        }
      }
    } else {
      assert r == pw;
    }
  }

  /** The second loop: draws from the combined pool until `length` is
      reached. */
  function Fill(pool: string, length: nat, pick: nat -> nat, pw: string): (r: string)
    requires |pw| < length ==> |pool| > 0
    decreases length - |pw|
    ensures |pw| >= length ==> r == pw
    ensures |pw| < length ==> |r| == length
    ensures |pw| <= |r|
  {
    if |pw| >= length then pw
    else Fill(pool, length, pick, pw + [Draw(pool, pick(|pw|))])
  }

  /** The fill loop keeps what was there and appends only pool characters. */
  lemma {:induction false} FillDraws(pool: string, length: nat, pick: nat -> nat, pw: string)
    requires |pw| < length ==> |pool| > 0
    ensures var r := Fill(pool, length, pick, pw);
      r[..|pw|] == pw && forall k :: |pw| <= k < |r| ==> r[k] in pool
    decreases length - |pw|
  {
    if |pw| < length {
      var pw' := pw + [Draw(pool, pick(|pw|))];
      var r := Fill(pool, length, pick, pw');
      FillDraws(pool, length, pick, pw');
      assert r[..|pw|] == r[..|pw'|][..|pw|];
      assert r[|pw|] == r[..|pw'|][|pw|];
    }
  }

  /** Exchanges positions i and j. */
  function Swap(s: string, i: nat, j: nat): (r: string)
    requires i < |s| && j < |s|
    ensures |r| == |s|
  {
    s[i := s[j]][j := s[i]]
  }

  /** A Fisher–Yates pass from position i on: position i is exchanged with a
      position at or below it chosen by the oracle. */
  function ShuffleFrom(s: string, i: nat, swap: nat -> nat): (r: string)
    requires i <= |s|
    decreases |s| - i
    ensures |r| == |s|
  {
    if i == |s| then s
    else ShuffleFrom(Swap(s, i, Index(swap(i), i + 1)), i + 1, swap)
  }

  /** `SliceRandom::shuffle`. */
  function Shuffle(s: string, swap: nat -> nat): (r: string)
    ensures |r| == |s|
  {
    ShuffleFrom(s, 0, swap)
  }

  /** Each swap, and so the whole pass, only rearranges the characters. */
  lemma {:induction false} ShuffleFromPermutes(s: string, i: nat, swap: nat -> nat)
    requires i <= |s|
    ensures multiset(ShuffleFrom(s, i, swap)) == multiset(s)
    decreases |s| - i
  {
    if i < |s| {
      var j := Index(swap(i), i + 1);
      ShuffleFromPermutes(Swap(s, i, j), i + 1, swap);
      SwapPermutes(s, i, j);
    }
  }

  /** One exchange keeps the multiset of characters. */
  lemma SwapPermutes(s: string, i: nat, j: nat)
    requires i < |s| && j < |s|
    ensures multiset(Swap(s, i, j)) == multiset(s)
  {
    var t := s[i := s[j]];
    assert multiset(t) == multiset(s) - multiset{s[i]} + multiset{s[j]};
    assert multiset(t[j := s[i]]) == multiset(t) - multiset{t[j]} + multiset{s[i]};
  }

  /** The shuffle is a permutation: same characters, same multiplicities. */
  lemma ShufflePermutes(s: string, swap: nat -> nat)
    ensures multiset(Shuffle(s, swap)) == multiset(s)
    ensures forall ch :: ch in Shuffle(s, swap) <==> ch in s
  {
    var r := Shuffle(s, swap);
    ShuffleFromPermutes(s, 0, swap);
    assert forall ch :: ch in r <==> ch in multiset(r);
  }

  /** The password before the shuffle: seeded characters then filler. Fails
      exactly when the filler would have to be drawn from an empty pool. */
  function Unshuffled(length: nat, f: Flags, pick: nat -> nat): Generation
  {
    var cs := EnabledClasses(f);
    var seeded := SeedClasses(cs, length, pick, "");
    var pool := Pool(cs);
    if |seeded| < length && |pool| == 0 then EmptyRange
    else Generated(Fill(pool, length, pick, seeded))
  }

  /** `generate_secure_password(length, upper, lower, numbers, special)`. */
  function Generate(length: nat, f: Flags, rng: Oracle): (r: Generation)
    ensures r.EmptyRange? <==> !f.AnyEnabled() && length > 0
    ensures r.Generated? ==> |r.password| == length
  {
    match Unshuffled(length, f, rng.pick)
    case EmptyRange => EmptyRange
    case Generated(pw) => Generated(Shuffle(pw, rng.swap))
  }

  /** The generated password is a permutation of the unshuffled one, and
      every character of it comes from the pool of enabled alphabets. */
  lemma GenerateShufflesPool(length: nat, f: Flags, rng: Oracle)
    requires Generate(length, f, rng).Generated?
    ensures Unshuffled(length, f, rng.pick).Generated?
    ensures multiset(Generate(length, f, rng).password) == multiset(Unshuffled(length, f, rng.pick).password)
    ensures forall ch :: ch in Generate(length, f, rng).password ==> ch in Pool(EnabledClasses(f))
  {
    UnshuffledInPool(length, f, rng.pick);
    ShufflePermutes(Unshuffled(length, f, rng.pick).password, rng.swap);
  }

  /** Every character of the unshuffled password lies in the pool. */
  lemma UnshuffledInPool(length: nat, f: Flags, pick: nat -> nat)
    requires Unshuffled(length, f, pick).Generated?
    ensures |Unshuffled(length, f, pick).password| == length
    ensures forall ch :: ch in Unshuffled(length, f, pick).password ==> ch in Pool(EnabledClasses(f))
  {
    var cs := EnabledClasses(f);
    var seeded := SeedClasses(cs, length, pick, "");
    var pool := Pool(cs);
    var pw := Fill(pool, length, pick, seeded);
    SeedClassesDraws(cs, length, pick, "");
    FillDraws(pool, length, pick, seeded);
    PoolMembers(cs);
    forall ch | ch in pw
      ensures ch in pool
    {
      var k :| 0 <= k < |pw| && pw[k] == ch;
      if k < |seeded| {
        assert pw[k] == seeded[k];
        AlphabetClassified(cs[k], ch);
      }
    }
  }

  /** Position k of the unshuffled password, for k below the number of seeded
      characters, is the character drawn for the k-th enabled class. */
  lemma SeededPositions(length: nat, f: Flags, pick: nat -> nat)
    requires f.AnyEnabled()
    ensures Unshuffled(length, f, pick).Generated?
    ensures var cs := EnabledClasses(f); var pre := Unshuffled(length, f, pick).password;
      forall k :: 0 <= k < Min(length, |cs|) ==> Classify(pre[k]) == cs[k]
  {
    var cs := EnabledClasses(f);
    var seeded := SeedClasses(cs, length, pick, "");
    var pre := Fill(Pool(cs), length, pick, seeded);
    SeedClassesDraws(cs, length, pick, "");
    FillDraws(Pool(cs), length, pick, seeded);
    forall k | 0 <= k < Min(length, |cs|)
      ensures Classify(pre[k]) == cs[k]
    {
      assert pre[k] == pre[..|seeded|][k];
      AlphabetClassified(cs[k], pre[k]);
    }
  }

  /** Coverage: the first `length` enabled classes, in the order Upper, Lower,
      Number, Special, each contribute at least one character. */
  lemma {:induction false} SeededClassesPresent(length: nat, f: Flags, rng: Oracle)
    requires f.AnyEnabled()
    ensures Generate(length, f, rng).Generated?
    ensures var cs := EnabledClasses(f);
      forall i :: 0 <= i < Min(length, |cs|) ==> HasClass(Generate(length, f, rng).password, cs[i])
  {
    var cs := EnabledClasses(f);
    var pre := Unshuffled(length, f, rng.pick).password;
    var pw := Generate(length, f, rng).password;
    SeededPositions(length, f, rng.pick);
    ShufflePermutes(pre, rng.swap);
    forall i | 0 <= i < Min(length, |cs|)
      ensures HasClass(pw, cs[i])
    {
      assert pre[i] in multiset(pre);
      assert pre[i] in pw;
    }
  }

  /** When `length` is at least the number of enabled classes, the password
      contains a character of a class exactly when that class is enabled. */
  lemma {:induction false} FullCoverage(length: nat, f: Flags, rng: Oracle)
    requires f.AnyEnabled() && length >= |EnabledClasses(f)|
    ensures Generate(length, f, rng).Generated?
    ensures forall c :: HasClass(Generate(length, f, rng).password, c) <==> f.Enabled(c)
  {
    var cs := EnabledClasses(f);
    var pw := Generate(length, f, rng).password;
    SeededClassesPresent(length, f, rng);
    GenerateShufflesPool(length, f, rng);
    PoolMembers(cs);
    forall c | f.Enabled(c)
      ensures HasClass(pw, c)
    {
      var i :| 0 <= i < |cs| && cs[i] == c;
    }
  }

  /** When `length` is below the number of enabled classes, only the first
      `length` of them appear; the later ones are absent. */
  lemma {:induction false} ShortLengthCoverage(length: nat, f: Flags, rng: Oracle)
    requires length < |EnabledClasses(f)|
    ensures Generate(length, f, rng).Generated?
    ensures forall c :: HasClass(Generate(length, f, rng).password, c) <==> c in EnabledClasses(f)[..length]
  {
    forall c
      ensures HasClass(Generate(length, f, rng).password, c) <==> c in EnabledClasses(f)[..length]
    {
      ShortLengthClass(length, f, rng, c);
    }
  }

  lemma ShortLengthClass(length: nat, f: Flags, rng: Oracle, c: CharClass)
    requires length < |EnabledClasses(f)|
    ensures Generate(length, f, rng).Generated?
    ensures HasClass(Generate(length, f, rng).password, c) <==> c in EnabledClasses(f)[..length]
  {
    var cs := EnabledClasses(f);
    var pw := Generate(length, f, rng).password;
    SeededClassesPresent(length, f, rng);
    if HasClass(pw, c) {
      var ch :| ch in pw && Classify(ch) == c;
      OnlySeededClasses(length, f, rng, ch);
    }
  }

  /** Below the number of enabled classes nothing is filled in, so each
      character comes from one of the first `length` classes. */
  lemma OnlySeededClasses(length: nat, f: Flags, rng: Oracle, ch: char)
    requires length < |EnabledClasses(f)|
    requires Generate(length, f, rng).Generated?
    requires ch in Generate(length, f, rng).password
    ensures Classify(ch) in EnabledClasses(f)[..length]
  {
    var cs := EnabledClasses(f);
    var pre := Unshuffled(length, f, rng.pick).password;
    var pw := Generate(length, f, rng).password;
    SeededPositions(length, f, rng.pick);
    GenerateShufflesPool(length, f, rng);
    assert ch in multiset(pw);
    assert ch in multiset(pre);
    var k :| 0 <= k < |pre| && pre[k] == ch;
    assert cs[..length][k] == Classify(ch);
  }
}
