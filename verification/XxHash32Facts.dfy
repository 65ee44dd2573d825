/**
What pins the hash of XxHash32 down: its values on strings that reach every branch, and that neither a round nor the
final mixing loses anything.
*/
module XxHash32Facts {
  import opened Bytes
  import opened XxHash32

  // ---------------------------------------------------------------- nothing is lost on the way

  /** The inverses of the first three primes among words. */
  const UN_1: word := 244002641
  const UN_2: word := 3066638151
  const UN_3: word := 2828982549

  lemma MulIs(a: word, b: word)
    ensures Mul(a, b) == a * b
  {
  }

  lemma Undoes(x: word, p: word, q: word)
    requires p * q == 1
    ensures (x * p) * q == x
  {
    Regroup(x, p, q);
    Neutral(x, p * q);
  }

  lemma Regroup(x: word, p: word, q: word)
    ensures (x * p) * q == x * (p * q)
  {
  }

  lemma Neutral(x: word, p: word)
    requires p == 1
    ensures x * p == x
  {
  }

  lemma MulUndoes(x: word, p: word, q: word)
    requires p * q == 1
    ensures Mul(x * p, q) == x
  {
    Undoes(x, p, q);
  }

  lemma Unmul(x: word, p: word, q: word)
    requires p * q == 1
    ensures Mul(Mul(x, p), q) == x
  {
    hide Mul;
    MulIs(x, p);
    MulUndoes(x, p, q);
  }

  lemma Inverses()
    ensures PRIME_1 * UN_1 == 1 && PRIME_2 * UN_2 == 1 && PRIME_3 * UN_3 == 1
  {
  }

  lemma Shifted15(x: word)
    ensures XorShift(x, 15) == x ^ (x >> 15)
    ensures XorShift(x ^ (x >> 15), 15) == x ^ (x >> 30)
    ensures XorShift(x ^ (x >> 30), 30) == x
  {
  }

  lemma Unshift15(x: word)
    ensures XorShift(XorShift(XorShift(x, 15), 15), 30) == x
  {
    hide XorShift;
    Shifted15(x);
  }

  lemma Shifted13(x: word)
    ensures XorShift(x, 13) == x ^ (x >> 13)
    ensures XorShift(x ^ (x >> 13), 13) == x ^ (x >> 26)
    ensures XorShift(x ^ (x >> 26), 26) == x
  {
  }

  lemma Unshift13(x: word)
    ensures XorShift(XorShift(XorShift(x, 13), 13), 26) == x
  {
    hide XorShift;
    Shifted13(x);
  }

  lemma Unshift16(x: word)
    ensures XorShift(XorShift(x, 16), 16) == x
  {
    assert XorShift(x, 16) == x ^ (x >> 16) && XorShift(x ^ (x >> 16), 16) == x;
    hide XorShift;
  }

  lemma Unrotate(x: word)
    ensures Rotl(Rotl(x, 13), 19) == x
  {
    assert Rotl(x, 13) == (x << 13) | (x >> 19) && Rotl((x << 13) | (x >> 19), 19) == x;
    hide Rotl;
  }

  function Sub(a: word, b: word): word { a - b }

  lemma Unadd(a: word, b: word)
    ensures Sub(Add(a, b), b) == a && Sub(Add(a, b), a) == b
  {
  }

  function Unavalanche(r: word): word {
    XorShift(XorShift(Mul(XorShift(XorShift(Mul(XorShift(r, 16), UN_3), 13), 26), UN_2), 15), 30)
  }

  /** The final mixing loses nothing: it can be undone, so different words stay different. */
  lemma AvalancheIsOneToOne(h: word)
    ensures Unavalanche(Avalanche(h)) == h
  {
    hide XorShift, Mul;
    Inverses();
    var a := XorShift(h, 15);
    var b := XorShift(Mul(a, PRIME_2), 13);
    Unshift16(Mul(b, PRIME_3));
    Unmul(b, PRIME_3, UN_3);
    Unshift13(Mul(a, PRIME_2));
    Unmul(a, PRIME_2, UN_2);
    Unshift15(h);
  }

  /** Nor does a round: accumulator and input can each be had back from the result and the other. */
  lemma RoundIsOneToOne(acc: word, input: word)
    ensures var sum := Rotl(Mul(Round(acc, input), UN_1), 19);
      Sub(sum, Mul(input, PRIME_2)) == acc && Mul(Sub(sum, acc), UN_2) == input
  {
    hide Add, Mul, Rotl, Sub;
    Inverses();
    var m := Mul(input, PRIME_2);
    Unmul(Rotl(Add(acc, m), 13), PRIME_1, UN_1);
    Unrotate(Add(acc, m));
    Unadd(acc, m);
    Unmul(input, PRIME_2, UN_2);
  }

  // ---------------------------------------------------------------- single steps

  lemma ShortHash(data: seq<byte>, seed: word, n: size)
    requires |data| == n < STRIPE
    ensures Hash(data, seed) == End(Short(seed), n, data)
  {
    hide End, Short;
    assert Whole(|data|) == 0 && data[0..] == data;
  }

  lemma LongHash(head: seq<byte>, tail: seq<byte>, seed: word, n: size)
    requires |head| == STRIPE && |tail| < STRIPE && n == STRIPE + |tail|
    ensures Hash(head + tail, seed) == End(Merge(Stripe(Init(seed), head)), n, tail)
  {
    hide End, Merge, Stripe, Init;
    var data := head + tail;
    assert Whole(|data|) == STRIPE && data[..STRIPE] == head && data[STRIPE..] == tail;
    assert head[..0] == [] && head[0..] == head;
    NoStripes(Init(seed));
  }

  /** The bytes 1 to 16. */
  const HEAD: seq<byte> :=
    [1, 2, 3, 4, 5, 6, 7, 8, 9, 10, 11, 12, 13, 14, 15, 16]

  lemma HeadWords()
    ensures Little4(1, 2, 3, 4) == 0x04030201
    ensures Little4(5, 6, 7, 8) == 0x08070605
    ensures Little4(9, 10, 11, 12) == 0x0C0B0A09
    ensures Little4(13, 14, 15, 16) == 0x100F0E0D
  {
  }

  lemma HeadStripe(v: Lanes)
    ensures Stripe(v, HEAD) == Lanes(Round(v.v1, 0x04030201), Round(v.v2, 0x08070605),
                                     Round(v.v3, 0x0C0B0A09), Round(v.v4, 0x100F0E0D))
  {
    hide Round, Little4;
    HeadWords();
  }

  lemma HeadRounds()
    ensures Init(0) == Lanes(0x24234428, 0x85EBCA77, 0, 0x61C8864F)
    ensures Round(0x24234428, 0x04030201) == 0x56F04F51
    ensures Round(0x85EBCA77, 0x08070605) == 0xC2C38A70
    ensures Round(0, 0x0C0B0A09) == 0xA61BB979
    ensures Round(0x61C8864F, 0x100F0E0D) == 0xB0266E49
  {
  }

  lemma HeadMerged()
    ensures Merge(Lanes(0x56F04F51, 0xC2C38A70, 0xA61BB979, 0xB0266E49))
      == 0x846431FD
  {
  }

  lemma HeadMain()
    ensures Merge(Stripe(Init(0), HEAD)) == 0x846431FD
  {
    hide Merge, Stripe, Init, Round;
    HeadRounds();
    HeadStripe(Init(0));
    HeadMerged();
  }

  lemma HeadRoundsSeeded()
    ensures Init(0x9E3779B1) == Lanes(0xC25ABDD9, 0x24234428, 0x9E3779B1, 0)
    ensures Round(0xC25ABDD9, 0x04030201) == 0x5C6E0AE8
    ensures Round(0x24234428, 0x08070605) == 0xC8414607
    ensures Round(0x9E3779B1, 0x0C0B0A09) == 0x9ACF9510
    ensures Round(0, 0x100F0E0D) == 0xA4DA49E0
  {
  }

  lemma HeadMergedSeeded()
    ensures Merge(Lanes(0x5C6E0AE8, 0xC8414607, 0x9ACF9510, 0xA4DA49E0))
      == 0xFA52B6C9
  {
  }

  lemma HeadMainSeeded()
    ensures Merge(Stripe(Init(0x9E3779B1), HEAD)) == 0xFA52B6C9
  {
    hide Merge, Stripe, Init, Round;
    HeadRoundsSeeded();
    HeadStripe(Init(0x9E3779B1));
    HeadMergedSeeded();
  }

  lemma EndIs(h: word, n: size, tail: seq<byte>)
    ensures End(h, n, tail) == Finalize(h + n as word, tail)
  {
    hide Finalize;
  }

  lemma FinalizeWord(h: word, a: byte, b: byte, c: byte, d: byte, tail: seq<byte>)
    ensures Finalize(h, [a, b, c, d] + tail) == Finalize(WordStep(h, Little4(a, b, c, d)), tail)
  {
    hide WordStep, Little4;
    assert ([a, b, c, d] + tail)[4..] == tail;
  }

  lemma FinalizeByte(h: word, b: byte, tail: seq<byte>)
    requires |tail| < 3
    ensures Finalize(h, [b] + tail) == Finalize(ByteStep(h, b as word), tail)
  {
    hide ByteStep;
    assert ([b] + tail)[1..] == tail;
  }

  lemma FinalizeNone(h: word)
    ensures Finalize(h, []) == Avalanche(h)
  {
    hide Avalanche;
  }

  // ---------------------------------------------------------------- known answers

  lemma EmptySteps()
    ensures Short(0) == 0x165667B1
    ensures 0x165667B1 + 0 as word == 0x165667B1
    ensures Avalanche(0x165667B1) == 0x02CC5D05
  {
  }

  /** Nothing. */
  lemma KnownEmpty()
    ensures Hash([], 0) == 0x02CC5D05
  {
    hide Hash, End, Finalize, Avalanche, Short, Init, Stripe, Merge, Little4, WordStep, ByteStep;
    EmptySteps();
    ShortHash([], 0, 0);
    EndIs(0x165667B1, 0, []);
    FinalizeNone(0x165667B1);
  }

  lemma EmptySeededSteps()
    ensures Short(0x9E3779B1) == 0xB48DE162
    ensures 0xB48DE162 + 0 as word == 0xB48DE162
    ensures Avalanche(0xB48DE162) == 0x36B78AE7
  {
  }

  /** Nothing. With a seed. */
  lemma KnownEmptySeeded()
    ensures Hash([], 0x9E3779B1) == 0x36B78AE7
  {
    hide Hash, End, Finalize, Avalanche, Short, Init, Stripe, Merge, Little4, WordStep, ByteStep;
    EmptySeededSteps();
    ShortHash([], 0x9E3779B1, 0);
    EndIs(0xB48DE162, 0, []);
    FinalizeNone(0xB48DE162);
  }

  lemma ByteSteps()
    ensures Short(0) == 0x165667B1
    ensures 0x165667B1 + 1 as word == 0x165667B2
    ensures ByteStep(0x165667B2, 97) == 0x6506CBE8
    ensures Avalanche(0x6506CBE8) == 0x550D7456
  {
  }

  /** One byte. */
  lemma KnownByte()
    ensures Hash([97], 0) == 0x550D7456
  {
    hide Hash, End, Finalize, Avalanche, Short, Init, Stripe, Merge, Little4, WordStep, ByteStep;
    ByteSteps();
    ShortHash([97], 0, 1);
    EndIs(0x165667B1, 1, [97]);
    assert [97] == [97] + [];
    FinalizeByte(0x165667B2, 97, []);
    FinalizeNone(0x6506CBE8);
  }

  lemma ByteSeededSteps()
    ensures Short(0x9E3779B1) == 0xB48DE162
    ensures 0xB48DE162 + 1 as word == 0xB48DE163
    ensures ByteStep(0xB48DE163, 97) == 0x4DF4193A
    ensures Avalanche(0x4DF4193A) == 0x9E1633E4
  {
  }

  /** One byte. With a seed. */
  lemma KnownByteSeeded()
    ensures Hash([97], 0x9E3779B1) == 0x9E1633E4
  {
    hide Hash, End, Finalize, Avalanche, Short, Init, Stripe, Merge, Little4, WordStep, ByteStep;
    ByteSeededSteps();
    ShortHash([97], 0x9E3779B1, 1);
    EndIs(0xB48DE162, 1, [97]);
    assert [97] == [97] + [];
    FinalizeByte(0xB48DE163, 97, []);
    FinalizeNone(0x4DF4193A);
  }

  lemma WordSteps()
    ensures Short(0) == 0x165667B1
    ensures 0x165667B1 + 4 as word == 0x165667B5
    ensures Little4(97, 98, 99, 100) == 0x64636261
    ensures WordStep(0x165667B5, 0x64636261) == 0x75275207
    ensures Avalanche(0x75275207) == 0xA3643705
  {
  }

  /** Four bytes. */
  lemma KnownWord()
    ensures Hash([97, 98, 99, 100], 0) == 0xA3643705
  {
    hide Hash, End, Finalize, Avalanche, Short, Init, Stripe, Merge, Little4, WordStep, ByteStep;
    WordSteps();
    ShortHash([97, 98, 99, 100], 0, 4);
    EndIs(0x165667B1, 4, [97, 98, 99, 100]);
    assert [97, 98, 99, 100] == [97, 98, 99, 100] + [];
    FinalizeWord(0x165667B5, 97, 98, 99, 100, []);
    FinalizeNone(0x75275207);
  }

  lemma WordSeededSteps()
    ensures Short(0x9E3779B1) == 0xB48DE162
    ensures 0xB48DE162 + 4 as word == 0xB48DE166
    ensures Little4(97, 98, 99, 100) == 0x64636261
    ensures WordStep(0xB48DE166, 0x64636261) == 0x5B674F68
    ensures Avalanche(0x5B674F68) == 0x0A7E979C
  {
  }

  /** Four bytes. With a seed. */
  lemma KnownWordSeeded()
    ensures Hash([97, 98, 99, 100], 0x9E3779B1) == 0x0A7E979C
  {
    hide Hash, End, Finalize, Avalanche, Short, Init, Stripe, Merge, Little4, WordStep, ByteStep;
    WordSeededSteps();
    ShortHash([97, 98, 99, 100], 0x9E3779B1, 4);
    EndIs(0xB48DE162, 4, [97, 98, 99, 100]);
    assert [97, 98, 99, 100] == [97, 98, 99, 100] + [];
    FinalizeWord(0xB48DE166, 97, 98, 99, 100, []);
    FinalizeNone(0x5B674F68);
  }

  lemma StripeSteps()
    ensures 0x846431FD + 16 as word == 0x8464320D
    ensures Avalanche(0x8464320D) == 0xF52DF30C
  {
  }

  /** A whole stripe. */
  lemma KnownStripe()
    ensures Hash(HEAD, 0) == 0xF52DF30C
  {
    hide Hash, End, Finalize, Avalanche, Short, Init, Stripe, Merge, Little4, WordStep, ByteStep;
    StripeSteps();
    assert HEAD + [] == HEAD;
    HeadMain();
    LongHash(HEAD, [], 0, 16);
    EndIs(0x846431FD, 16, []);
    FinalizeNone(0x8464320D);
  }

  lemma StripeSeededSteps()
    ensures 0xFA52B6C9 + 16 as word == 0xFA52B6D9
    ensures Avalanche(0xFA52B6D9) == 0x3AA08DC5
  {
  }

  /** A whole stripe. With a seed. */
  lemma KnownStripeSeeded()
    ensures Hash(HEAD, 0x9E3779B1) == 0x3AA08DC5
  {
    hide Hash, End, Finalize, Avalanche, Short, Init, Stripe, Merge, Little4, WordStep, ByteStep;
    StripeSeededSteps();
    assert HEAD + [] == HEAD;
    HeadMainSeeded();
    LongHash(HEAD, [], 0x9E3779B1, 16);
    EndIs(0xFA52B6C9, 16, []);
    FinalizeNone(0xFA52B6D9);
  }

  lemma RestSteps()
    ensures 0x846431FD + 21 as word == 0x84643212
    ensures Little4(250, 251, 252, 253) == 0xFDFCFBFA
    ensures WordStep(0x84643212, 0xFDFCFBFA) == 0xCF9457F8
    ensures ByteStep(0xCF9457F8, 254) == 0x21CF8CAA
    ensures Avalanche(0x21CF8CAA) == 0x49D5224F
  {
  }

  /** A stripe and a rest that takes every kind of step. */
  lemma KnownRest()
    ensures Hash(HEAD + [250, 251, 252, 253, 254], 0) == 0x49D5224F
  {
    hide Hash, End, Finalize, Avalanche, Short, Init, Stripe, Merge, Little4, WordStep, ByteStep;
    RestSteps();
    HeadMain();
    LongHash(HEAD, [250, 251, 252, 253, 254], 0, 21);
    EndIs(0x846431FD, 21, [250, 251, 252, 253, 254]);
    assert [250, 251, 252, 253, 254] == [250, 251, 252, 253] + [254];
    FinalizeWord(0x84643212, 250, 251, 252, 253, [254]);
    assert [254] == [254] + [];
    FinalizeByte(0xCF9457F8, 254, []);
    FinalizeNone(0x21CF8CAA);
  }

  lemma RestSeededSteps()
    ensures 0xFA52B6C9 + 21 as word == 0xFA52B6DE
    ensures Little4(250, 251, 252, 253) == 0xFDFCFBFA
    ensures WordStep(0xFA52B6DE, 0xFDFCFBFA) == 0x1AD1848B
    ensures ByteStep(0x1AD1848B, 254) == 0x06DB46E4
    ensures Avalanche(0x06DB46E4) == 0xA5D32FDC
  {
  }

  /** A stripe and a rest that takes every kind of step. With a seed. */
  lemma KnownRestSeeded()
    ensures Hash(HEAD + [250, 251, 252, 253, 254], 0x9E3779B1) == 0xA5D32FDC
  {
    hide Hash, End, Finalize, Avalanche, Short, Init, Stripe, Merge, Little4, WordStep, ByteStep;
    RestSeededSteps();
    HeadMainSeeded();
    LongHash(HEAD, [250, 251, 252, 253, 254], 0x9E3779B1, 21);
    EndIs(0xFA52B6C9, 21, [250, 251, 252, 253, 254]);
    assert [250, 251, 252, 253, 254] == [250, 251, 252, 253] + [254];
    FinalizeWord(0xFA52B6DE, 250, 251, 252, 253, [254]);
    assert [254] == [254] + [];
    FinalizeByte(0x1AD1848B, 254, []);
    FinalizeNone(0x06DB46E4);
  }
}
