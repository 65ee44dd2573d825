/**
XXH32: the one-shot hash, and reset, update and digest on a state that buffers up to one stripe.
*/
module XxHash32 {
  import opened Bytes
  import opened Lz4Copy

  const MODULUS := 0x1_0000_0000
  type word = bv32
  /** A length as the state keeps it. */
  type size = n: nat | n < MODULUS

  const PRIME_1: word := 2654435761
  const PRIME_2: word := 2246822519
  const PRIME_3: word := 3266489917
  const PRIME_4: word := 668265263
  const PRIME_5: word := 374761393
  const STRIPE := 16

  // ---------------------------------------------------------------- arithmetic

  function Add(a: word, b: word): word { a + b }

  function Mul(a: word, b: word): word { a * b }

  function Rotl(x: word, n: word): word
    requires n <= 32
  {
    (x << n) | (x >> (32 - n))
  }

  function XorShift(x: word, n: word): word
    requires n <= 32
  {
    x ^ (x >> n)
  }

  function Round(acc: word, input: word): word { Mul(Rotl(Add(acc, Mul(input, PRIME_2)), 13), PRIME_1) }

  function Avalanche(h: word): word { XorShift(Mul(XorShift(Mul(XorShift(h, 15), PRIME_2), 13), PRIME_3), 16) }

  function Read32(s: seq<byte>, i: nat): word
    requires i + 4 <= |s|
  {
    Little4(s[i], s[i + 1], s[i + 2], s[i + 3])
  }

  function Little4(a: byte, b: byte, c: byte, d: byte): word {
    (a as word) | (b as word << 8) | (c as word << 16) | (d as word << 24)
  }

  function Merge(v: Lanes): word { Rotl(v.v1, 1) + Rotl(v.v2, 7) + Rotl(v.v3, 12) + Rotl(v.v4, 18) }

  /** The bytes behind the last stripe: four at a time, then one at a time. */
  function Finalize(h: word, tail: seq<byte>): word
    decreases |tail|
  {
    hide WordStep, ByteStep, Avalanche;
    if |tail| >= 4 then Finalize(WordStep(h, Read32(tail, 0)), tail[4..])
    else if |tail| >= 1 then Finalize(ByteStep(h, tail[0] as word), tail[1..])
    else Avalanche(h)
  }

  function WordStep(h: word, w: word): word { Mul(Rotl(h + Mul(w, PRIME_3), 17), PRIME_4) }

  function ByteStep(h: word, b: word): word { Mul(Rotl(h + Mul(b, PRIME_5), 11), PRIME_1) }

  /** The four accumulators. */
  datatype Lanes = Lanes(v1: word, v2: word, v3: word, v4: word)

  function Init(seed: word): Lanes {
    Lanes(seed + PRIME_1 + PRIME_2, seed + PRIME_2, seed, seed - PRIME_1)
  }

  function Stripe(v: Lanes, s: seq<byte>): Lanes
    requires |s| == STRIPE
  {
    Lanes(Round(v.v1, Read32(s, 0)), Round(v.v2, Read32(s, 4)), Round(v.v3, Read32(s, 8)), Round(v.v4, Read32(s, 12)))
  }

  /** The accumulators after whole stripes. */
  function Stripes(v: Lanes, s: seq<byte>): Lanes {
    if |s| < STRIPE then v else Stripe(Stripes(v, s[..|s| - STRIPE]), s[|s| - STRIPE..])
  }

  /** Length of the whole stripes of `n` bytes. */
  function Whole(n: nat): (m: nat)
    ensures m % STRIPE == 0 && m <= n < m + STRIPE
  {
    n / STRIPE * STRIPE
  }

  /** What takes the place of the accumulators for less than a stripe. */
  function Short(seed: word): word { seed + PRIME_5 }

  /** The length and the bytes behind the last stripe. */
  function End(h: word, n: size, tail: seq<byte>): word { Finalize(h + n as word, tail) }

  /** The whole stripes of a byte string. */
  function Main(data: seq<byte>, seed: word): word {
    if |data| >= STRIPE then Merge(Stripes(Init(seed), data[..Whole(|data|)])) else Short(seed)
  }

  /** The hash of a byte string. */
  function Hash(data: seq<byte>, seed: word): word {
    hide End, Main;
    End(Main(data, seed), |data| % MODULUS, data[Whole(|data|)..])
  }

  lemma NextStripe(v: Lanes, s: seq<byte>, n: nat)
    requires n + STRIPE <= |s|
    ensures Stripes(v, s[..n + STRIPE]) == Stripe(Stripes(v, s[..n]), s[n..n + STRIPE])
  {
    hide Stripe;
    var t := s[..n + STRIPE];
    assert t[..|t| - STRIPE] == s[..n] && t[|t| - STRIPE..] == s[n..n + STRIPE];
  }

  // ---------------------------------------------------------------- one shot

  /** XXH32 on the whole input. */
  method OneShot(input: seq<byte>, seed: word) returns (h: word)
    ensures h == Hash(input, seed)
  {
    hide Stripe, End, Merge, Stripes, Init, Short;
    var p := 0;
    if |input| >= STRIPE {
      var v := Init(seed);
      assert v == Stripes(Init(seed), input[..0]) by { NoStripes(Init(seed)); }
      while p <= |input| - STRIPE
        invariant 0 <= p <= |input| && p % STRIPE == 0 && v == Stripes(Init(seed), input[..p])
      {
        NextStripe(Init(seed), input, p);
        v := Stripe(v, input[p..p + STRIPE]);
        p := p + STRIPE;
      }
      h := Merge(v);
    } else {
      h := Short(seed);
    }
    WholeUnique(|input|, p);
    h := End(h, |input| % MODULUS, input[p..]);
  }

  /** The next stripe lies in the input that follows the data. */
  lemma NextOfInput(v: Lanes, data: seq<byte>, input: seq<byte>, p: nat)
    requires p + STRIPE <= |input|
    ensures var all, n := data + input, |data| + p;
      Stripes(v, all[..n + STRIPE]) == Stripe(Stripes(v, all[..n]), input[p..p + STRIPE])
  {
    hide Stripe, Stripes;
    var all, n := data + input, |data| + p;
    assert all[n..n + STRIPE] == input[p..p + STRIPE];
    NextStripe(v, all, n);
  }

  /** The next stripe is what is left of the data and the beginning of the input. */
  lemma NextOfBuffer(v: Lanes, data: seq<byte>, input: seq<byte>, m: nat, p: nat, stripe: seq<byte>)
    requires m <= |data| && p <= |input| && |data| + p == m + STRIPE && stripe == data[m..] + input[..p]
    ensures Stripes(v, (data + input)[..|data| + p]) == Stripe(Stripes(v, data[..m]), stripe)
  {
    hide Stripe, Stripes;
    var all := data + input;
    assert all[..m] == data[..m] && all[m..m + STRIPE] == stripe;
    NextStripe(v, all, m);
  }

  lemma NothingWhole()
    ensures Whole(0) == 0
  {
  }

  lemma NoStripes(v: Lanes)
    ensures Stripes(v, []) == v
  {
  }

  lemma WholeUnique(n: nat, p: nat)
    requires p % STRIPE == 0 && p <= n < p + STRIPE
    ensures p == Whole(n)
  {
    assert p == p / STRIPE * STRIPE;
    assert n / STRIPE == p / STRIPE;
  }

  // ---------------------------------------------------------------- streaming

  class State {
    var totalLen: size
    var largeLen: bool
    var v: Lanes
    const mem: array<byte>
    var memsize: nat
    // what has been hashed since the last reset
    ghost var data: seq<byte>
    ghost var seed: word

    ghost predicate Valid()
      reads this, mem
    {
      totalLen == |data| % MODULUS && Buffered() && (largeLen <==> |data| >= STRIPE)
    }

    /** The accumulators hold the whole stripes of the data, the buffer the rest. */
    ghost predicate Buffered()
      reads this, mem
    {
      && mem.Length == STRIPE && memsize < STRIPE
      && memsize == |data| - Whole(|data|) && mem[..memsize] == data[Whole(|data|)..]
      && v == Stripes(Init(seed), data[..Whole(|data|)])
    }

    constructor ()
      ensures Valid() && data == [] && fresh(mem)
    {
      hide Init;
      seed := 0;
      totalLen, largeLen, v, memsize, data := 0, false, Init(0), 0, [];
      mem := new byte[STRIPE](_ => 0);
      new;
      NoStripes(Init(0));
    }

    method Reset(seed: word)
      requires Valid()
      modifies this, mem
      ensures Valid() && data == [] && this.seed == seed
    {
      hide Init, Stripes, Stripe;
      totalLen, largeLen, v, memsize := 0, false, Init(seed), 0;
      forall i | 0 <= i < mem.Length { mem[i] := 0; }
      data := [];
      this.seed := seed;
      NothingWhole();
      NoStripes(Init(seed));
    }

    method Update(input: seq<byte>)
      requires Valid()
      modifies this, mem
      ensures Valid() && data == old(data) + input && seed == old(seed)
    {
      hide Init, Stripes, Stripe, Whole;
      TotalAdds(|data|, |input|);
      totalLen := (totalLen + |input|) % MODULUS;
      largeLen := largeLen || |input| >= STRIPE || totalLen >= STRIPE;
      LargeAdds(|data|, |input|);
      if memsize + |input| < STRIPE {
        Keep(input);
      } else {
        Absorb(input);
      }
    }

    /** Input that does not complete a stripe goes to the buffer. */
    method Keep(input: seq<byte>)
      requires Buffered() && memsize + |input| < STRIPE
      modifies this`memsize, this`data, mem
      ensures Buffered() && data == old(data) + input
    {
      hide Init, Stripes, Stripe, Whole;
      CopyIn(mem, memsize, input, 0, |input|);
      Copied(mem, memsize, input, 0, |input|);
      assert mem[..memsize + |input|] == mem[..memsize] + mem[memsize..memsize + |input|];
      assert mem[..memsize] == old(mem[..memsize]);
      ShortUpdate(data, input, mem[..memsize + |input|]);
      memsize := memsize + |input|;
      data := data + input;
    }

    /** Longer input completes the buffered stripe, is taken in whole stripes, and leaves its rest in the buffer. */
    method Absorb(input: seq<byte>)
      requires Buffered() && memsize + |input| >= STRIPE
      modifies this`v, this`memsize, this`data, mem
      ensures Buffered() && data == old(data) + input
    {
      hide Init, Stripes, Stripe, Whole;
      ghost var all := data + input;
      var p := Fill(input);
      p := Consume(input, p, all);
      memsize := |input| - p;
      CopyIn(mem, 0, input, p, memsize);
      Copied(mem, 0, input, p, memsize);
      WholeUnique(|all|, |data| + p);
      assert all[|data| + p..] == input[p..];
      assert mem[..memsize] == mem[0..0 + memsize];
      data := all;
    }

    /** Completes a partly filled stripe from the input. */
    method Fill(input: seq<byte>) returns (p: nat)
      requires Buffered() && memsize + |input| >= STRIPE
      modifies this`v, this`memsize, mem
      ensures p <= |input| && (|data| + p) % STRIPE == 0 && v == Stripes(Init(seed), (data + input)[..|data| + p])
    {
      hide Init, Stripes, Stripe;
      ghost var all, m := data + input, Whole(|data|);
      assert all[..m] == data[..m];
      p := 0;
      if memsize > 0 {
        p := STRIPE - memsize;
        ghost var rest := mem[..memsize];
        CopyIn(mem, memsize, input, 0, p);
        Copied(mem, memsize, input, 0, p);
        assert mem[..] == mem[..memsize] + mem[memsize..] == rest + input[..p];
        NextOfBuffer(Init(seed), data, input, m, p, mem[..]);
        v := Stripe(v, mem[..]);
        memsize := 0;
      }
    }

    /** Whole stripes straight from the input. */
    method Consume(input: seq<byte>, start: nat, ghost all: seq<byte>) returns (p: nat)
      requires all == data + input && start <= |input| && (|data| + start) % STRIPE == 0
      requires v == Stripes(Init(seed), all[..|data| + start])
      modifies this`v
      ensures start <= p <= |input| < p + STRIPE && (|data| + p) % STRIPE == 0
      ensures v == Stripes(Init(seed), all[..|data| + p])
    {
      hide Init, Stripes, Stripe;
      p := start;
      while p + STRIPE <= |input|
        invariant start <= p <= |input| && (|data| + p) % STRIPE == 0
        invariant v == Stripes(Init(seed), all[..|data| + p])
      {
        NextOfInput(Init(seed), data, input, p);
        v := Stripe(v, input[p..p + STRIPE]);
        p := p + STRIPE;
      }
    }

    /** The hash of everything since the last reset; the state stays as it is. */
    method Digest() returns (h: word)
      requires Valid()
      ensures h == Hash(data, seed)
    {
      hide Stripe, End, Merge, Stripes, Short;
      if largeLen {
        h := Merge(v);
      } else {
        assert Whole(|data|) == 0 && data[..0] == [];
        NoStripes(Init(seed));
        h := Short(v.v3);
      }
      h := End(h, totalLen, mem[..memsize]);
    }
  }

  /** The wrapped total, together with the flag, tells a long input from a short one. */
  lemma LargeAdds(a: nat, b: nat)
    ensures a + b >= STRIPE <==> a >= STRIPE || b >= STRIPE || (a + b) % MODULUS >= STRIPE
  {
    if a < STRIPE && b < STRIPE {
      assert (a + b) % MODULUS == a + b;
    }
  }

  lemma TotalAdds(a: nat, b: nat)
    ensures (a % MODULUS + b) % MODULUS == (a + b) % MODULUS
  {
    assert a == MODULUS * (a / MODULUS) + a % MODULUS;
    ModPlusMultiple(a % MODULUS + b, a / MODULUS);
  }

  lemma {:induction false} ModPlusMultiple(n: nat, k: nat)
    ensures (n + MODULUS * k) % MODULUS == n % MODULUS
  {
    if k > 0 {
      ModPlusMultiple(n, k - 1);
      assert n + MODULUS * k == n + MODULUS * (k - 1) + MODULUS;
    }
  }

  /** Input that does not complete a stripe only extends the buffered rest. */
  lemma ShortUpdate(data: seq<byte>, input: seq<byte>, buffered: seq<byte>)
    requires |data| - Whole(|data|) + |input| < STRIPE && buffered == data[Whole(|data|)..] + input
    ensures Whole(|data + input|) == Whole(|data|) && (data + input)[..Whole(|data|)] == data[..Whole(|data|)]
    ensures buffered == (data + input)[Whole(|data|)..]
  {
    WholeUnique(|data + input|, Whole(|data|));
  }

  // ---------------------------------------------------------------- every split

  function Concat(chunks: seq<seq<byte>>): seq<byte> {
    if chunks == [] then [] else Concat(chunks[..|chunks| - 1]) + chunks[|chunks| - 1]
  }

  /** However the input is cut into updates, the digest is the one-shot hash of the whole. */
  method HashChunks(chunks: seq<seq<byte>>, seed: word) returns (h: word)
    ensures h == Hash(Concat(chunks), seed)
  {
    hide Hash, Stripes, Init, Whole;
    var state := new State();
    state.Reset(seed);
    var i := 0;
    while i < |chunks|
      invariant 0 <= i <= |chunks| && state.Valid() && state.seed == seed && state.data == Concat(chunks[..i])
      invariant fresh(state) && fresh(state.mem)
    {
      state.Update(chunks[i]);
      assert chunks[..i + 1][..i] == chunks[..i];
      i := i + 1;
    }
    assert chunks[..i] == chunks;
    h := state.Digest();
  }
}
