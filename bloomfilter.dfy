/** A plain, non-counting Bloom filter over a fixed array of 64-bit words.

    One 64-bit hash of the input seeds an 8-byte counter; probe 0 is that
    hash read back big-endian, and every later probe is the hash of the
    counter's 8 bytes, the counter being incremented (with wrap-around) after
    each probe. Probe `h` sets or tests bit `h % (64 * words)`.

    The hash primitive (xxhash's Sum64 in the original) is a parameter of
    type `Hasher` fixed at construction, so every property below holds for
    any hash function. */
module BloomFilter {
  import opened ByteOrder

  /** A 64-bit hash of a byte string. */
  type Hasher = seq<byte> -> u64

  /** Word counts at or above this make `len(b) * 64` wrap around 2^64. */
  const MaxWords: int := 0x400_0000_0000_0000

  // ---------------------------------------------------------------------
  // Probe derivation
  // ---------------------------------------------------------------------

  /** `x` reduced to 64 bits, as Go's `uint64` arithmetic wraps around. */
  function Wrap(x: nat): u64
  {
    if x < 0x1_0000_0000_0000_0000 then x else x % 0x1_0000_0000_0000_0000
  }

  /** The counter's `(*p)++`: add one, wrapping from 2^64 - 1 to 0. */
  function Inc(c: u64): u64
  {
    Wrap(c + 1)
  }

  /** Wrapping early or late gives the same 64-bit sum. */
  lemma WrapAdd(x: nat, y: nat)
    ensures Wrap(Wrap(x) + y) == Wrap(x + y)
  {
    var q := x / 0x1_0000_0000_0000_0000;
    assert x == q * 0x1_0000_0000_0000_0000 + Wrap(x);
    assert x + y == q * 0x1_0000_0000_0000_0000 + (Wrap(x) + y);
  }

  /** Probe `i` of input `s`. Probe 0 is the base hash stored in the
      counter buffer and read back big-endian; probe `i > 0` is the hash of
      the buffer's bytes while the counter holds base + `i` (mod 2^64). */
  function Probe(hash: Hasher, s: seq<byte>, i: nat): u64
  {
    if i == 0 then BeUint64(LeBytes(hash(s)))
    else hash(LeBytes(Wrap(hash(s) + i)))
  }

  /** The first `k` probes of `s`, in the order the filter visits them. */
  function Probes(hash: Hasher, s: seq<byte>, k: nat): (ps: seq<u64>)
    ensures |ps| == k
  {
    seq(k, i requires 0 <= i => Probe(hash, s, i))
  }

  /** The hashes of `n` successive counter values starting at `ctr`, each
      counter laid out little-endian before it is hashed: the counter
      stepping of the original loop, as a reference for `Probes`. */
  function CounterHashes(hash: Hasher, ctr: u64, n: nat): (hs: seq<u64>)
    ensures |hs| == n
    decreases n
  {
    if n == 0 then [] else [hash(LeBytes(ctr))] + CounterHashes(hash, Inc(ctr), n - 1)
  }

  /** Hash `j` of a run started at counter `ctr` is the hash of `ctr + j`. */
  lemma {:induction false} CounterHashAt(hash: Hasher, ctr: u64, n: nat, j: nat)
    requires j < n
    ensures CounterHashes(hash, ctr, n)[j] == hash(LeBytes(Wrap(ctr + j)))
    decreases j
  {
    if j > 0 {
      var next := Inc(ctr);
      CounterHashAt(hash, next, n - 1, j - 1);
      assert CounterHashes(hash, ctr, n)[j] == CounterHashes(hash, next, n - 1)[j - 1];
      assert Wrap(next + (j - 1)) == Wrap(ctr + j) by { WrapAdd(ctr + 1, j - 1); }
    } else {
      assert Wrap(ctr) == ctr;
    }
  }

  /** Probe `i > 0` is hash `i - 1` of the counter run that starts at
      base + 1. */
  lemma CounterHashIsProbe(hash: Hasher, s: seq<byte>, n: nat, i: nat)
    requires 0 < i <= n
    ensures CounterHashes(hash, Inc(hash(s)), n)[i - 1] == Probe(hash, s, i)
  {
    var base := hash(s);
    CounterHashAt(hash, Inc(base), n, i - 1);
    assert Wrap(Inc(base) + (i - 1)) == Wrap(base + i) by { WrapAdd(base + 1, i - 1); }
  }

  /** The closed form agrees with the counter stepping: after the
      byte-swapped base hash come the hashes of the counter as it steps
      from base + 1, one increment per probe. */
  lemma ProbesByCounter(hash: Hasher, s: seq<byte>, k: nat)
    requires k > 0
    ensures Probes(hash, s, k) ==
      [BeUint64(LeBytes(hash(s)))] + CounterHashes(hash, Inc(hash(s)), k - 1)
  {
    var ref := [BeUint64(LeBytes(hash(s)))] + CounterHashes(hash, Inc(hash(s)), k - 1);
    forall i | 0 <= i < k ensures Probes(hash, s, k)[i] == ref[i] {
      if i > 0 {
        CounterHashIsProbe(hash, s, k - 1, i);
      }
    }
  }

  /** The first step of the probe loop: the base hash read back big-endian
      is probe 0. */
  lemma FirstStep(hash: Hasher, s: seq<byte>, k: nat)
    requires 0 < k
    ensures BeUint64(LeBytes(hash(s))) == Probes(hash, s, k)[0]
  {
  }

  /** A later step of the probe loop: with the counter at base + `i`, its
      hash is probe `i`, and the incremented counter is base + `i` + 1. */
  lemma NextStep(hash: Hasher, s: seq<byte>, k: nat, i: nat, counter: u64)
    requires 0 < i < k && counter == Wrap(hash(s) + i)
    ensures hash(LeBytes(counter)) == Probes(hash, s, k)[i]
    ensures Inc(counter) == Wrap(hash(s) + i + 1)
  {
    WrapAdd(hash(s) + i, 1);
  }

  /** Probe 0 is the base hash with its bytes reversed, not a second hash. */
  lemma FirstProbeIsByteSwap(hash: Hasher, s: seq<byte>, k: nat)
    requires k > 0
    ensures Probes(hash, s, k)[0] == ByteSwap64(hash(s))
  {
    BigEndianReadSwaps(hash(s));
  }

  // ---------------------------------------------------------------------
  // Bit array
  // ---------------------------------------------------------------------

  /** The bit a probe value addresses in an array of `words` words: the
      probe reduced modulo the bit count, by repeated subtraction. */
  function ProbeBit(p: nat, words: nat): (n: nat)
    requires words > 0
    ensures n < words * 64 && n / 64 < words
    decreases p
  {
    if p < words * 64 then p else ProbeBit(p - words * 64, words)
  }

  /** The addressed bit is the remainder of the probe by the bit count, as
      `hi % maxBits` computes it. */
  lemma {:induction false} ProbeBitIsMod(p: nat, words: nat)
    requires words > 0
    ensures ProbeBit(p, words) == p % (words * 64)
    decreases p
  {
    var bits := words * 64;
    if p < bits {
      ModOfSmall(p, bits);
    } else {
      ProbeBitIsMod(p - bits, words);
      ModShift(p - bits, bits);
    }
  }

  /** A number below the modulus is its own remainder. */
  lemma ModOfSmall(x: nat, m: nat)
    requires x < m
    ensures x % m == x
  {
    var d := x / m;
    assert d * m == x - x % m;
  }

  /** Adding the modulus does not change a remainder. */
  lemma ModShift(x: nat, m: nat)
    requires m > 0
    ensures (x + m) % m == x % m
  {
    var d := (x + m) / m - x / m - 1;
    assert d * m == x % m - (x + m) % m;
  }

  /** The position of bit `n` inside its word. */
  function Offset(n: nat): bv6
  {
    (n % 64) as bv6
  }

  /** The single-bit mask for bit `j` of a word. */
  function Mask(j: bv6): bv64
  {
    1 << j
  }

  /** Whether bit `j` of word `x` is set. */
  predicate HasBit(x: bv64, j: bv6)
  {
    x & Mask(j) != 0
  }

  /** Word `x` with bit `j` set. */
  function WithBit(x: bv64, j: bv6): bv64
  {
    x | Mask(j)
  }

  /** Bit `n` of the flat bitset: bit `n % 64` of word `n / 64`. */
  predicate BitOn(w: seq<bv64>, n: nat)
    requires n < |w| * 64
  {
    HasBit(w[n / 64], Offset(n))
  }

  /** The bitset with bit `n` set by OR-ing its mask into its word. */
  function SetBit(w: seq<bv64>, n: nat): (r: seq<bv64>)
    requires n < |w| * 64
    ensures |r| == |w|
  {
    w[n / 64 := WithBit(w[n / 64], Offset(n))]
  }

  /** Every bit set in `w` is set in `w'`, word by word. */
  predicate Covers(w': seq<bv64>, w: seq<bv64>)
  {
    |w'| == |w| && forall i :: 0 <= i < |w| ==> w[i] & w'[i] == w[i]
  }

  /** Every bit addressed by a probe in `ps` is set. */
  predicate AllOn(w: seq<bv64>, ps: seq<u64>)
    requires |w| > 0
  {
    forall j :: 0 <= j < |ps| ==> BitOn(w, ProbeBit(ps[j], |w|))
  }

  /** The words that probes `ps` address. */
  function Buckets(ps: seq<u64>, words: nat): set<nat>
    requires words > 0
  {
    set j | 0 <= j < |ps| :: ProbeBit(ps[j], words) / 64
  }

  /** The bitset after setting the bits of the first `n` probes of `ps`,
      first to last. */
  function Insert(w: seq<bv64>, ps: seq<u64>, n: nat): (r: seq<bv64>)
    requires |w| > 0 && n <= |ps|
    ensures |r| == |w|
    decreases n
  {
    if n == 0 then w else SetBit(Insert(w, ps, n - 1), ProbeBit(ps[n - 1], |w|))
  }

  /** Whether `s` may be a member: every one of its probe bits is set. */
  predicate Member(hash: Hasher, k: nat, w: seq<bv64>, s: seq<byte>)
    requires |w| > 0
  {
    AllOn(w, Probes(hash, s, k))
  }

  /** The bitset after inserting the first `n` inputs of `ss`, first to
      last. */
  function InsertAll(hash: Hasher, k: nat, w: seq<bv64>, ss: seq<seq<byte>>, n: nat): (r: seq<bv64>)
    requires |w| > 0 && n <= |ss|
    ensures |r| == |w|
    decreases n
  {
    if n == 0 then w else Insert(InsertAll(hash, k, w, ss, n - 1), Probes(hash, ss[n - 1], k), k)
  }

  // ---------------------------------------------------------------------
  // Properties of the bit array
  // ---------------------------------------------------------------------

  /** A word whose set bits include those of `x` keeps every bit of `x`. */
  lemma WordKeepsBit(x: bv64, y: bv64, j: bv6)
    requires x & y == x && HasBit(x, j)
    ensures HasBit(y, j)
  {
  }

  /** OR-ing a mask into a word keeps all the word's bits. */
  lemma WordOrCovers(x: bv64, m: bv64)
    ensures x & (x | m) == x
  {
  }

  /** OR-ing in the mask of a bit sets that bit. */
  lemma WordOrSets(x: bv64, j: bv6)
    ensures HasBit(WithBit(x, j), j)
  {
    assert WithBit(x, j) & Mask(j) == Mask(j);
  }

  /** OR-ing in the mask of a bit that is already set changes nothing. */
  lemma WordOrNoop(x: bv64, j: bv6)
    requires x & Mask(j) != 0
    ensures x | Mask(j) == x
  {
    assert x & Mask(j) == Mask(j);
  }

  lemma CoversTransitive(w3: seq<bv64>, w2: seq<bv64>, w1: seq<bv64>)
    requires Covers(w3, w2) && Covers(w2, w1)
    ensures Covers(w3, w1)
  {
    forall i | 0 <= i < |w1| ensures w1[i] & w3[i] == w1[i] {
      assert w1[i] & w2[i] == w1[i] && w2[i] & w3[i] == w2[i];
    }
  }

  /** A bit set in `w` stays set in any bitset that covers `w`. */
  lemma CoversKeepsBit(w': seq<bv64>, w: seq<bv64>, n: nat)
    requires Covers(w', w) && n < |w| * 64 && BitOn(w, n)
    ensures BitOn(w', n)
  {
    WordKeepsBit(w[n / 64], w'[n / 64], Offset(n));
  }

  /** Membership survives any growth of the bitset. */
  lemma CoversKeepsAllOn(w': seq<bv64>, w: seq<bv64>, ps: seq<u64>)
    requires |w| > 0 && Covers(w', w) && AllOn(w, ps)
    ensures AllOn(w', ps)
  {
    forall j | 0 <= j < |ps| ensures BitOn(w', ProbeBit(ps[j], |w'|)) {
      CoversKeepsBit(w', w, ProbeBit(ps[j], |w|));
    }
  }

  /** Setting a bit never clears one. */
  lemma SetBitCovers(w: seq<bv64>, n: nat)
    requires n < |w| * 64
    ensures Covers(SetBit(w, n), w)
  {
    var r := SetBit(w, n);
    forall i | 0 <= i < |w| ensures w[i] & r[i] == w[i] {
      if i == n / 64 {
        WordOrCovers(w[i], Mask(Offset(n)));
      }
    }
  }

  /** Setting a bit sets it. */
  lemma SetBitSets(w: seq<bv64>, n: nat)
    requires n < |w| * 64
    ensures BitOn(SetBit(w, n), n)
  {
    WordOrSets(w[n / 64], Offset(n));
  }

  /** Inserting never clears a bit. */
  lemma {:induction false} InsertCovers(w: seq<bv64>, ps: seq<u64>, n: nat)
    requires |w| > 0 && n <= |ps|
    ensures Covers(Insert(w, ps, n), w)
  {
    if n > 0 {
      var w1 := Insert(w, ps, n - 1);
      InsertCovers(w, ps, n - 1);
      SetBitCovers(w1, ProbeBit(ps[n - 1], |w|));
      CoversTransitive(Insert(w, ps, n), w1, w);
    }
  }

  /** After inserting the first `n` probes, every bit they address is set. */
  lemma {:induction false} InsertSetsProbes(w: seq<bv64>, ps: seq<u64>, n: nat)
    requires |w| > 0 && n <= |ps|
    ensures forall j :: 0 <= j < n ==> BitOn(Insert(w, ps, n), ProbeBit(ps[j], |w|))
  {
    if n > 0 {
      var w1 := Insert(w, ps, n - 1);
      var r := Insert(w, ps, n);
      InsertSetsProbes(w, ps, n - 1);
      SetBitCovers(w1, ProbeBit(ps[n - 1], |w|));
      SetBitSets(w1, ProbeBit(ps[n - 1], |w|));
      forall j | 0 <= j < n - 1 ensures BitOn(r, ProbeBit(ps[j], |w|)) {
        CoversKeepsBit(r, w1, ProbeBit(ps[j], |w|));
      }
    }
  }

  /** Inserting changes no word outside the probed buckets. */
  lemma {:induction false} InsertFrame(w: seq<bv64>, ps: seq<u64>, n: nat, i: nat)
    requires |w| > 0 && n <= |ps| && i < |w| && i !in Buckets(ps, |w|)
    ensures Insert(w, ps, n)[i] == w[i]
  {
    if n > 0 {
      InsertFrame(w, ps, n - 1, i);
      assert ProbeBit(ps[n - 1], |w|) / 64 in Buckets(ps, |w|);
    }
  }

  /** Inserting one more probe sets that probe's bit in the bitset built so
      far. */
  lemma InsertStep(w: seq<bv64>, ps: seq<u64>, i: nat, before: seq<bv64>, after: seq<bv64>, n: nat)
    requires |w| > 0 && i < |ps| && before == Insert(w, ps, i)
    requires n == ProbeBit(ps[i], |w|)
    requires after == before[n / 64 := WithBit(before[n / 64], Offset(n))]
    ensures after == Insert(w, ps, i + 1)
  {
  }

  /** What inserting all of `ps` does: no bit is cleared, every probed bit
      is set, and no word outside the probed buckets changes. */
  lemma InsertEffects(w: seq<bv64>, ps: seq<u64>)
    requires |w| > 0
    ensures Covers(Insert(w, ps, |ps|), w)
    ensures AllOn(Insert(w, ps, |ps|), ps)
    ensures forall i :: 0 <= i < |w| && i !in Buckets(ps, |w|) ==> Insert(w, ps, |ps|)[i] == w[i]
  {
    InsertCovers(w, ps, |ps|);
    InsertSetsProbes(w, ps, |ps|);
    forall i | 0 <= i < |w| && i !in Buckets(ps, |w|) ensures Insert(w, ps, |ps|)[i] == w[i] {
      InsertFrame(w, ps, |ps|, i);
    }
  }

  /** One clear probe bit is enough to rule a membership out. */
  lemma ClearBitRulesOut(w: seq<bv64>, ps: seq<u64>, i: nat)
    requires |w| > 0 && i < |ps| && !BitOn(w, ProbeBit(ps[i], |w|))
    ensures !AllOn(w, ps)
  {
  }

  /** Inserting probes whose bits are all set already changes nothing. */
  lemma {:induction false} InsertNoop(w: seq<bv64>, ps: seq<u64>, n: nat)
    requires |w| > 0 && n <= |ps| && AllOn(w, ps)
    ensures Insert(w, ps, n) == w
  {
    if n > 0 {
      InsertNoop(w, ps, n - 1);
      var b := ProbeBit(ps[n - 1], |w|);
      assert BitOn(w, b);
      WordOrNoop(w[b / 64], Offset(b));
    }
  }

  /** Inserting the same probes twice leaves what inserting them once does. */
  lemma InsertIdempotent(w: seq<bv64>, ps: seq<u64>)
    requires |w| > 0
    ensures Insert(Insert(w, ps, |ps|), ps, |ps|) == Insert(w, ps, |ps|)
  {
    InsertSetsProbes(w, ps, |ps|);
    InsertNoop(Insert(w, ps, |ps|), ps, |ps|);
  }

  /** Inserting a batch never clears a bit. */
  lemma {:induction false} InsertAllCovers(hash: Hasher, k: nat, w: seq<bv64>, ss: seq<seq<byte>>, n: nat)
    requires |w| > 0 && n <= |ss|
    ensures Covers(InsertAll(hash, k, w, ss, n), w)
  {
    if n > 0 {
      var w1 := InsertAll(hash, k, w, ss, n - 1);
      InsertAllCovers(hash, k, w, ss, n - 1);
      InsertCovers(w1, Probes(hash, ss[n - 1], k), k);
      CoversTransitive(InsertAll(hash, k, w, ss, n), w1, w);
    }
  }

  /** An input is a member once its own probes are inserted. */
  lemma MemberAfterInsert(hash: Hasher, k: nat, w: seq<bv64>, s: seq<byte>)
    requires |w| > 0
    ensures Member(hash, k, Insert(w, Probes(hash, s, k), k), s)
  {
    InsertEffects(w, Probes(hash, s, k));
  }

  /** Inserting further probes keeps every member a member. */
  lemma MemberSurvivesInsert(hash: Hasher, k: nat, w: seq<bv64>, ps: seq<u64>, s: seq<byte>)
    requires |w| > 0 && Member(hash, k, w, s)
    ensures Member(hash, k, Insert(w, ps, |ps|), s)
  {
    InsertCovers(w, ps, |ps|);
    CoversKeepsAllOn(Insert(w, ps, |ps|), w, Probes(hash, s, k));
  }

  /** No false negatives: every input among the first `n` of a batch is a
      member afterwards, whatever the bitset held before and whatever was
      inserted after it. */
  lemma {:induction false} NoFalseNegatives(hash: Hasher, k: nat, w: seq<bv64>, ss: seq<seq<byte>>, n: nat, j: nat)
    requires |w| > 0 && j < n <= |ss|
    ensures Member(hash, k, InsertAll(hash, k, w, ss, n), ss[j])
  {
    var w1 := InsertAll(hash, k, w, ss, n - 1);
    if j == n - 1 {
      MemberAfterInsert(hash, k, w1, ss[j]);
    } else {
      NoFalseNegatives(hash, k, w, ss, n - 1, j);
      MemberSurvivesInsert(hash, k, w1, Probes(hash, ss[n - 1], k), ss[j]);
    }
  }

  /** The all-zero bitset of a new filter holds no input at all. */
  lemma EmptyHoldsNothing(hash: Hasher, k: nat, words: nat, s: seq<byte>)
    requires words > 0 && k > 0
    ensures !Member(hash, k, seq(words, _ => 0 as bv64), s)
  {
    var w := seq(words, _ => 0 as bv64);
    var n := ProbeBit(Probes(hash, s, k)[0], words);
    assert w[n / 64] == 0;
  }

  // ---------------------------------------------------------------------
  // The filter
  // ---------------------------------------------------------------------

  class Filter {
    /** The hash primitive. */
    const hash: Hasher
    /** The word count given at construction (at least 1). */
    const m: u64
    /** The number of probes per input (at least 1). */
    const k: u64
    /** The bit array: `m` words, bit `n` at bit `n % 64` of word `n / 64`. */
    const b: array<bv64>

    ghost predicate Valid()
    {
      1 <= m < MaxWords && 1 <= k && b.Length == m
    }

    /** `New`: a zero word count or probe count is raised to 1; the words
        start out all zero. */
    constructor New(m0: u64, k0: u64, hash: Hasher)
      requires m0 < MaxWords
      ensures Valid() && fresh(b)
      ensures m == (if m0 == 0 then 1 else m0)
      ensures k == (if k0 == 0 then 1 else k0)
      ensures this.hash == hash
      ensures b[..] == seq(m, _ => 0 as bv64)
    {
      var words := if m0 == 0 then 1 else m0;
      this.m := words;
      this.k := if k0 == 0 then 1 else k0;
      this.hash := hash;
      this.b := new bv64[words](_ => 0);
    }

    /** `Add`: sets the bit of each of the `k` probes of `s`. */
    method Add(s: seq<byte>)
      requires Valid()
      modifies b
      ensures b[..] == Insert(old(b[..]), Probes(hash, s, k), k)
    {
      ghost var ps := Probes(hash, s, k);
      ghost var w0 := b[..];
      // The 8-byte buffer `tmp` of the source is `LeBytes(counter)`: the
      // counter's little-endian layout.
      var maxBits := b.Length * 64;
      var counter: u64 := 0;
      var i: u64 := 0;
      while i < k
        invariant 0 <= i <= k
        invariant i > 0 ==> counter == Wrap(hash(s) + i)
        invariant b[..] == Insert(w0, ps, i)
      {
        var hi: u64;
        if i == 0 {
          counter := hash(s);
          hi := BeUint64(LeBytes(counter));
          FirstStep(hash, s, k);
        } else {
          hi := hash(LeBytes(counter));
          NextStep(hash, s, k, i, counter);
        }
        counter := Inc(counter);
        var num := hi % maxBits;
        ProbeBitIsMod(hi, b.Length);
        var bucket := num / 64;
        ghost var before := b[..];
        b[bucket] := WithBit(b[bucket], Offset(num));
        InsertStep(w0, ps, i, before, b[..], num);
        i := i + 1;
      }
    }

    /** `AddAll`: adds each input of `ss`, first to last. */
    method AddAll(ss: seq<seq<byte>>)
      requires Valid()
      modifies b
      ensures b[..] == InsertAll(hash, k, old(b[..]), ss, |ss|)
      ensures forall j :: 0 <= j < |ss| ==> Member(hash, k, b[..], ss[j])
    {
      ghost var w0 := b[..];
      var i := 0;
      while i < |ss|
        invariant 0 <= i <= |ss|
        invariant b[..] == InsertAll(hash, k, w0, ss, i)
      {
        Add(ss[i]);
        i := i + 1;
      }
      forall j | 0 <= j < |ss| ensures Member(hash, k, b[..], ss[j]) {
        NoFalseNegatives(hash, k, w0, ss, |ss|, j);
      }
    }

    /** `Contains`: whether every probe bit of `s` is set; stops at the first
        clear bit. */
    method Contains(s: seq<byte>) returns (r: bool)
      requires Valid()
      ensures r == Member(hash, k, b[..], s)
    {
      ghost var ps := Probes(hash, s, k);
      ghost var w := b[..];
      // The 8-byte buffer `tmp` of the source is `LeBytes(counter)`: the
      // counter's little-endian layout.
      var maxBits := b.Length * 64;
      var counter: u64 := 0;
      var i: u64 := 0;
      while i < k
        invariant 0 <= i <= k
        invariant i > 0 ==> counter == Wrap(hash(s) + i)
        invariant forall j :: 0 <= j < i ==> BitOn(w, ProbeBit(ps[j], |w|))
      {
        var hi: u64;
        if i == 0 {
          counter := hash(s);
          hi := BeUint64(LeBytes(counter));
          FirstStep(hash, s, k);
        } else {
          hi := hash(LeBytes(counter));
          NextStep(hash, s, k, i, counter);
        }
        counter := Inc(counter);
        var num := hi % maxBits;
        ProbeBitIsMod(hi, b.Length);
        var bucket := num / 64;
        if !HasBit(b[bucket], Offset(num)) {
          ClearBitRulesOut(w, ps, i);
          return false;
        }
        i := i + 1;
      }
      return true;
    }

    /** `ContainsAll`: whether every input of `ss` may be a member; stops at
        the first miss. */
    method ContainsAll(ss: seq<seq<byte>>) returns (r: bool)
      requires Valid()
      ensures r <==> forall j :: 0 <= j < |ss| ==> Member(hash, k, b[..], ss[j])
    {
      ghost var w := b[..];
      var i := 0;
      while i < |ss|
        invariant 0 <= i <= |ss|
        invariant forall j :: 0 <= j < i ==> Member(hash, k, w, ss[j])
      {
        var hit := Contains(ss[i]);
        assert b[..] == w;
        if !hit {
          return false;
        }
        i := i + 1;
      }
      return true;
    }

    /** `Cap`: the word count, i.e. the length of the bit array, not the
        number of bits. */
    function Cap(): (r: u64)
      requires Valid()
      ensures r >= 1 && r == b.Length
    {
      m
    }

    /** `K`: the number of probes each input sets or tests. */
    function K(): (r: u64)
      requires Valid()
      ensures r == k && r >= 1
      ensures forall s :: |Probes(hash, s, k)| == r
    {
      k
    }

    /** `BitSet`: the current contents of the bit array, read-only. */
    function BitSet(): (r: seq<bv64>)
      requires Valid()
      reads b
      ensures |r| == Cap() && forall i :: 0 <= i < |r| ==> r[i] == b[i]
    {
      b[..]
    }
  }

  /** A caller's view of the no-false-negatives promise: once `s` is added,
      `Contains(s)` answers true however many further inputs are added. */
  method AddThenContains(f: Filter, s: seq<byte>, later: seq<seq<byte>>) returns (r: bool)
    requires f.Valid()
    modifies f.b
    ensures f.b[..] == InsertAll(f.hash, f.k, Insert(old(f.b[..]), Probes(f.hash, s, f.k), f.k), later, |later|)
    ensures Member(f.hash, f.k, f.b[..], s)
    ensures r
  {
    ghost var w0 := f.b[..];
    f.Add(s);
    InsertEffects(w0, Probes(f.hash, s, f.k));
    ghost var w := f.b[..];
    f.AddAll(later);
    InsertAllCovers(f.hash, f.k, w, later, |later|);
    CoversKeepsAllOn(f.b[..], w, Probes(f.hash, s, f.k));
    r := f.Contains(s);
  }
}
