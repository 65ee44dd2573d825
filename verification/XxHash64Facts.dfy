/**
What pins the hash of XxHash64 down: its values on strings that reach every branch, and that neither a round nor the
final mixing loses anything.
*/
module XxHash64Facts {
  import opened Bytes
  import opened XxHash64

  // ---------------------------------------------------------------- nothing is lost on the way

  /** The inverses of the first three primes among words. */
  const UN_1: word := 614540362697595703
  const UN_2: word := 839798700976720815
  const UN_3: word := 16855272203555305545

  lemma MulIs(a: word, b: word)
    ensures Mul(a, b) == a * b
  {
  }

  lemma Undoes(x: word, p: word, q: word)
    requires p * q == 1
    ensures (x * p) * q == x
  {
    Regroup(x, p, q);
    Neutral(x, p * q);
  }

  lemma Regroup(x: word, p: word, q: word)
    ensures (x * p) * q == x * (p * q)
  {
  }

  lemma Neutral(x: word, p: word)
    requires p == 1
    ensures x * p == x
  {
  }

  lemma MulUndoes(x: word, p: word, q: word)
    requires p * q == 1
    ensures Mul(x * p, q) == x
  {
    Undoes(x, p, q);
  }

  lemma Unmul(x: word, p: word, q: word)
    requires p * q == 1
    ensures Mul(Mul(x, p), q) == x
  {
    hide Mul;
    MulIs(x, p);
    MulUndoes(x, p, q);
  }

  lemma Inverses()
    ensures PRIME_1 * UN_1 == 1 && PRIME_2 * UN_2 == 1 && PRIME_3 * UN_3 == 1
  {
  }

  lemma Unshift33(x: word)
    ensures XorShift(XorShift(x, 33), 33) == x
  {
    assert XorShift(x, 33) == x ^ (x >> 33) && XorShift(x ^ (x >> 33), 33) == x;
    hide XorShift;
  }

  lemma Shifted29(x: word)
    ensures XorShift(x, 29) == x ^ (x >> 29)
    ensures XorShift(x ^ (x >> 29), 29) == x ^ (x >> 58)
    ensures XorShift(x ^ (x >> 58), 58) == x
  {
  }

  lemma Unshift29(x: word)
    ensures XorShift(XorShift(XorShift(x, 29), 29), 58) == x
  {
    hide XorShift;
    Shifted29(x);
  }

  lemma Unshift32(x: word)
    ensures XorShift(XorShift(x, 32), 32) == x
  {
    assert XorShift(x, 32) == x ^ (x >> 32) && XorShift(x ^ (x >> 32), 32) == x;
    hide XorShift;
  }

  lemma Unrotate(x: word)
    ensures Rotl(Rotl(x, 31), 33) == x
  {
    assert Rotl(x, 31) == (x << 31) | (x >> 33) && Rotl((x << 31) | (x >> 33), 33) == x;
    hide Rotl;
  }

  function Sub(a: word, b: word): word { a - b }

  lemma Unadd(a: word, b: word)
    ensures Sub(Add(a, b), b) == a && Sub(Add(a, b), a) == b
  {
  }

  function Unavalanche(r: word): word {
    XorShift(Mul(XorShift(XorShift(Mul(XorShift(r, 32), UN_3), 29), 58), UN_2), 33)
  }

  /** The final mixing loses nothing: it can be undone, so different words stay different. */
  lemma AvalancheIsOneToOne(h: word)
    ensures Unavalanche(Avalanche(h)) == h
  {
    hide XorShift, Mul;
    Inverses();
    var a := XorShift(h, 33);
    var b := XorShift(Mul(a, PRIME_2), 29);
    Unshift32(Mul(b, PRIME_3));
    Unmul(b, PRIME_3, UN_3);
    Unshift29(Mul(a, PRIME_2));
    Unmul(a, PRIME_2, UN_2);
    Unshift33(h);
  }

  /** Nor does a round: accumulator and input can each be had back from the result and the other. */
  lemma RoundIsOneToOne(acc: word, input: word)
    ensures var sum := Rotl(Mul(Round(acc, input), UN_1), 33);
      Sub(sum, Mul(input, PRIME_2)) == acc && Mul(Sub(sum, acc), UN_2) == input
  {
    hide Add, Mul, Rotl, Sub;
    Inverses();
    var m := Mul(input, PRIME_2);
    Unmul(Rotl(Add(acc, m), 31), PRIME_1, UN_1);
    Unrotate(Add(acc, m));
    Unadd(acc, m);
    Unmul(input, PRIME_2, UN_2);
  }

  // ---------------------------------------------------------------- single steps

  lemma ShortHash(data: seq<byte>, seed: word, n: size)
    requires |data| == n < STRIPE
    ensures Hash(data, seed) == End(Short(seed), n, data)
  {
    hide End, Short;
    assert Whole(|data|) == 0 && data[0..] == data;
  }

  lemma LongHash(head: seq<byte>, tail: seq<byte>, seed: word, n: size)
    requires |head| == STRIPE && |tail| < STRIPE && n == STRIPE + |tail|
    ensures Hash(head + tail, seed) == End(Merge(Stripe(Init(seed), head)), n, tail)
  {
    hide End, Merge, Stripe, Init;
    var data := head + tail;
    assert Whole(|data|) == STRIPE && data[..STRIPE] == head && data[STRIPE..] == tail;
    assert head[..0] == [] && head[0..] == head;
    NoStripes(Init(seed));
  }

  /** The bytes 1 to 32. */
  const HEAD: seq<byte> :=
    [1, 2, 3, 4, 5, 6, 7, 8, 9, 10, 11, 12, 13, 14, 15, 16,
     17, 18, 19, 20, 21, 22, 23, 24, 25, 26, 27, 28, 29, 30, 31, 32]

  lemma HeadWords()
    ensures Little8(1, 2, 3, 4, 5, 6, 7, 8) == 0x0807060504030201
    ensures Little8(9, 10, 11, 12, 13, 14, 15, 16) == 0x100F0E0D0C0B0A09
    ensures Little8(17, 18, 19, 20, 21, 22, 23, 24) == 0x1817161514131211
    ensures Little8(25, 26, 27, 28, 29, 30, 31, 32) == 0x201F1E1D1C1B1A19
  {
  }

  lemma HeadStripe(v: Lanes)
    ensures Stripe(v, HEAD) == Lanes(Round(v.v1, 0x0807060504030201), Round(v.v2, 0x100F0E0D0C0B0A09),
                                     Round(v.v3, 0x1817161514131211), Round(v.v4, 0x201F1E1D1C1B1A19))
  {
    hide Round, Little8;
    HeadWords();
  }

  lemma HeadRounds()
    ensures Init(0) == Lanes(0x60EA27EEADC0B5D6, 0xC2B2AE3D27D4EB4F, 0, 0x61C8864E7A143579)
    ensures Round(0x60EA27EEADC0B5D6, 0x0807060504030201) == 0x84067DD7D1F3B82F
    ensures Round(0xC2B2AE3D27D4EB4F, 0x100F0E0D0C0B0A09) == 0x53248DD1B14B7EF7
    ensures Round(0, 0x1817161514131211) == 0x5A7802885A29AED5
    ensures Round(0x61C8864E7A143579, 0x201F1E1D1C1B1A19) == 0x299612823981759D
  {
  }

  lemma HeadMerged()
    ensures Merge(Lanes(0x84067DD7D1F3B82F, 0x53248DD1B14B7EF7, 0x5A7802885A29AED5, 0x299612823981759D))
      == 0xDA9D5E4F6F766B39
  {
  }

  lemma HeadMain()
    ensures Merge(Stripe(Init(0), HEAD)) == 0xDA9D5E4F6F766B39
  {
    hide Merge, Stripe, Init, Round;
    HeadRounds();
    HeadStripe(Init(0));
    HeadMerged();
  }

  lemma HeadRoundsSeeded()
    ensures Init(0x9E3779B185EBCA87) == Lanes(0xFF21A1A033AC805D, 0x60EA27EEADC0B5D6, 0x9E3779B185EBCA87, 0)
    ensures Round(0xFF21A1A033AC805D, 0x0807060504030201) == 0xD98190A204CA889E
    ensures Round(0x60EA27EEADC0B5D6, 0x100F0E0D0C0B0A09) == 0xA89FA09BE4224F66
    ensures Round(0x9E3779B185EBCA87, 0x1817161514131211) == 0xAFF315528D007F44
    ensures Round(0, 0x201F1E1D1C1B1A19) == 0xBC1B4008EC58460C
  {
  }

  lemma HeadMergedSeeded()
    ensures Merge(Lanes(0xD98190A204CA889E, 0xA89FA09BE4224F66, 0xAFF315528D007F44, 0xBC1B4008EC58460C))
      == 0x9202FFE5150CAE17
  {
  }

  lemma HeadMainSeeded()
    ensures Merge(Stripe(Init(0x9E3779B185EBCA87), HEAD)) == 0x9202FFE5150CAE17
  {
    hide Merge, Stripe, Init, Round;
    HeadRoundsSeeded();
    HeadStripe(Init(0x9E3779B185EBCA87));
    HeadMergedSeeded();
  }

  lemma EndIs(h: word, n: size, tail: seq<byte>)
    ensures End(h, n, tail) == Finalize(h + n as word, tail)
  {
    hide Finalize;
  }

  lemma FinalizeLong(x: word, a: byte, b: byte, c: byte, d: byte, e: byte, f: byte, g: byte, h: byte, tail: seq<byte>)
    ensures Finalize(x, [a, b, c, d, e, f, g, h] + tail) == Finalize(LongStep(x, Little8(a, b, c, d, e, f, g, h)), tail)
  {
    hide LongStep, Little8;
    assert ([a, b, c, d, e, f, g, h] + tail)[8..] == tail;
  }

  lemma FinalizeWord(h: word, a: byte, b: byte, c: byte, d: byte, tail: seq<byte>)
    requires |tail| < 4
    ensures Finalize(h, [a, b, c, d] + tail) == Finalize(WordStep(h, Little4(a, b, c, d)), tail)
  {
    hide WordStep, Little4;
    assert ([a, b, c, d] + tail)[4..] == tail;
  }

  lemma FinalizeByte(h: word, b: byte, tail: seq<byte>)
    requires |tail| < 3
    ensures Finalize(h, [b] + tail) == Finalize(ByteStep(h, b as word), tail)
  {
    hide ByteStep;
    assert ([b] + tail)[1..] == tail;
  }

  lemma FinalizeNone(h: word)
    ensures Finalize(h, []) == Avalanche(h)
  {
    hide Avalanche;
  }

  // ---------------------------------------------------------------- known answers

  lemma EmptySteps()
    ensures Short(0) == 0x27D4EB2F165667C5
    ensures 0x27D4EB2F165667C5 + 0 as word == 0x27D4EB2F165667C5
    ensures Avalanche(0x27D4EB2F165667C5) == 0xEF46DB3751D8E999
  {
  }

  /** Nothing. */
  lemma KnownEmpty()
    ensures Hash([], 0) == 0xEF46DB3751D8E999
  {
    hide Hash, End, Finalize, Avalanche, Short, Init, Stripe, Merge, Little4, WordStep, ByteStep, Little8, LongStep;
    EmptySteps();
    ShortHash([], 0, 0);
    EndIs(0x27D4EB2F165667C5, 0, []);
    FinalizeNone(0x27D4EB2F165667C5);
  }

  lemma EmptySeededSteps()
    ensures Short(0x9E3779B185EBCA87) == 0xC60C64E09C42324C
    ensures 0xC60C64E09C42324C + 0 as word == 0xC60C64E09C42324C
    ensures Avalanche(0xC60C64E09C42324C) == 0x6EC6D05F61C7E7A7
  {
  }

  /** Nothing. With a seed. */
  lemma KnownEmptySeeded()
    ensures Hash([], 0x9E3779B185EBCA87) == 0x6EC6D05F61C7E7A7
  {
    hide Hash, End, Finalize, Avalanche, Short, Init, Stripe, Merge, Little4, WordStep, ByteStep, Little8, LongStep;
    EmptySeededSteps();
    ShortHash([], 0x9E3779B185EBCA87, 0);
    EndIs(0xC60C64E09C42324C, 0, []);
    FinalizeNone(0xC60C64E09C42324C);
  }

  lemma ByteSteps()
    ensures Short(0) == 0x27D4EB2F165667C5
    ensures 0x27D4EB2F165667C5 + 1 as word == 0x27D4EB2F165667C6
    ensures ByteStep(0x27D4EB2F165667C6, 97) == 0xB86597E419D4D215
    ensures Avalanche(0xB86597E419D4D215) == 0xD24EC4F1A98C6E5B
  {
  }

  /** One byte. */
  lemma KnownByte()
    ensures Hash([97], 0) == 0xD24EC4F1A98C6E5B
  {
    hide Hash, End, Finalize, Avalanche, Short, Init, Stripe, Merge, Little4, WordStep, ByteStep, Little8, LongStep;
    ByteSteps();
    ShortHash([97], 0, 1);
    EndIs(0x27D4EB2F165667C5, 1, [97]);
    assert [97] == [97] + [];
    FinalizeByte(0x27D4EB2F165667C6, 97, []);
    FinalizeNone(0xB86597E419D4D215);
  }

  lemma ByteSeededSteps()
    ensures Short(0x9E3779B185EBCA87) == 0xC60C64E09C42324C
    ensures 0xC60C64E09C42324C + 1 as word == 0xC60C64E09C42324D
    ensures ByteStep(0xC60C64E09C42324D, 97) == 0x06A585661F98765B
    ensures Avalanche(0x06A585661F98765B) == 0x727C10E0D238E188
  {
  }

  /** One byte. With a seed. */
  lemma KnownByteSeeded()
    ensures Hash([97], 0x9E3779B185EBCA87) == 0x727C10E0D238E188
  {
    hide Hash, End, Finalize, Avalanche, Short, Init, Stripe, Merge, Little4, WordStep, ByteStep, Little8, LongStep;
    ByteSeededSteps();
    ShortHash([97], 0x9E3779B185EBCA87, 1);
    EndIs(0xC60C64E09C42324C, 1, [97]);
    assert [97] == [97] + [];
    FinalizeByte(0xC60C64E09C42324D, 97, []);
    FinalizeNone(0x06A585661F98765B);
  }

  lemma WordSteps()
    ensures Short(0) == 0x27D4EB2F165667C5
    ensures 0x27D4EB2F165667C5 + 4 as word == 0x27D4EB2F165667C9
    ensures Little4(97, 98, 99, 100) == 0x0000000064636261
    ensures WordStep(0x27D4EB2F165667C9, 0x0000000064636261) == 0x00E08A5499BA7DCB
    ensures Avalanche(0x00E08A5499BA7DCB) == 0xDE0327B0D25D92CC
  {
  }

  /** Four bytes. */
  lemma KnownWord()
    ensures Hash([97, 98, 99, 100], 0) == 0xDE0327B0D25D92CC
  {
    hide Hash, End, Finalize, Avalanche, Short, Init, Stripe, Merge, Little4, WordStep, ByteStep, Little8, LongStep;
    WordSteps();
    ShortHash([97, 98, 99, 100], 0, 4);
    EndIs(0x27D4EB2F165667C5, 4, [97, 98, 99, 100]);
    assert [97, 98, 99, 100] == [97, 98, 99, 100] + [];
    FinalizeWord(0x27D4EB2F165667C9, 97, 98, 99, 100, []);
    FinalizeNone(0x00E08A5499BA7DCB);
  }

  lemma WordSeededSteps()
    ensures Short(0x9E3779B185EBCA87) == 0xC60C64E09C42324C
    ensures 0xC60C64E09C42324C + 4 as word == 0xC60C64E09C423250
    ensures Little4(97, 98, 99, 100) == 0x0000000064636261
    ensures WordStep(0xC60C64E09C423250, 0x0000000064636261) == 0xBAC9CDF45A95CD00
    ensures Avalanche(0xBAC9CDF45A95CD00) == 0xE85345C5982BBA31
  {
  }

  /** Four bytes. With a seed. */
  lemma KnownWordSeeded()
    ensures Hash([97, 98, 99, 100], 0x9E3779B185EBCA87) == 0xE85345C5982BBA31
  {
    hide Hash, End, Finalize, Avalanche, Short, Init, Stripe, Merge, Little4, WordStep, ByteStep, Little8, LongStep;
    WordSeededSteps();
    ShortHash([97, 98, 99, 100], 0x9E3779B185EBCA87, 4);
    EndIs(0xC60C64E09C42324C, 4, [97, 98, 99, 100]);
    assert [97, 98, 99, 100] == [97, 98, 99, 100] + [];
    FinalizeWord(0xC60C64E09C423250, 97, 98, 99, 100, []);
    FinalizeNone(0xBAC9CDF45A95CD00);
  }

  lemma LongSteps()
    ensures Short(0) == 0x27D4EB2F165667C5
    ensures 0x27D4EB2F165667C5 + 8 as word == 0x27D4EB2F165667CD
    ensures Little8(97, 98, 99, 100, 101, 102, 103, 104) == 0x6867666564636261
    ensures LongStep(0x27D4EB2F165667CD, 0x6867666564636261) == 0xA119981D165AD1DF
    ensures Avalanche(0xA119981D165AD1DF) == 0x3AD351775B4634B7
  {
  }

  /** Eight bytes. */
  lemma KnownLong()
    ensures Hash([97, 98, 99, 100, 101, 102, 103, 104], 0) == 0x3AD351775B4634B7
  {
    hide Hash, End, Finalize, Avalanche, Short, Init, Stripe, Merge, Little4, WordStep, ByteStep, Little8, LongStep;
    LongSteps();
    ShortHash([97, 98, 99, 100, 101, 102, 103, 104], 0, 8);
    EndIs(0x27D4EB2F165667C5, 8, [97, 98, 99, 100, 101, 102, 103, 104]);
    assert [97, 98, 99, 100, 101, 102, 103, 104] == [97, 98, 99, 100, 101, 102, 103, 104] + [];
    FinalizeLong(0x27D4EB2F165667CD, 97, 98, 99, 100, 101, 102, 103, 104, []);
    FinalizeNone(0xA119981D165AD1DF);
  }

  lemma LongSeededSteps()
    ensures Short(0x9E3779B185EBCA87) == 0xC60C64E09C42324C
    ensures 0xC60C64E09C42324C + 8 as word == 0xC60C64E09C423254
    ensures Little8(97, 98, 99, 100, 101, 102, 103, 104) == 0x6867666564636261
    ensures LongStep(0xC60C64E09C423254, 0x6867666564636261) == 0xF890BEAAD2E5E659
    ensures Avalanche(0xF890BEAAD2E5E659) == 0x980D1F27E25F8670
  {
  }

  /** Eight bytes. With a seed. */
  lemma KnownLongSeeded()
    ensures Hash([97, 98, 99, 100, 101, 102, 103, 104], 0x9E3779B185EBCA87) == 0x980D1F27E25F8670
  {
    hide Hash, End, Finalize, Avalanche, Short, Init, Stripe, Merge, Little4, WordStep, ByteStep, Little8, LongStep;
    LongSeededSteps();
    ShortHash([97, 98, 99, 100, 101, 102, 103, 104], 0x9E3779B185EBCA87, 8);
    EndIs(0xC60C64E09C42324C, 8, [97, 98, 99, 100, 101, 102, 103, 104]);
    assert [97, 98, 99, 100, 101, 102, 103, 104] == [97, 98, 99, 100, 101, 102, 103, 104] + [];
    FinalizeLong(0xC60C64E09C423254, 97, 98, 99, 100, 101, 102, 103, 104, []);
    FinalizeNone(0xF890BEAAD2E5E659);
  }

  lemma StripeSteps()
    ensures 0xDA9D5E4F6F766B39 + 32 as word == 0xDA9D5E4F6F766B59
    ensures Avalanche(0xDA9D5E4F6F766B59) == 0x89614B7813C0BD7F
  {
  }

  /** A whole stripe. */
  lemma KnownStripe()
    ensures Hash(HEAD, 0) == 0x89614B7813C0BD7F
  {
    hide Hash, End, Finalize, Avalanche, Short, Init, Stripe, Merge, Little4, WordStep, ByteStep, Little8, LongStep;
    StripeSteps();
    assert HEAD + [] == HEAD;
    HeadMain();
    LongHash(HEAD, [], 0, 32);
    EndIs(0xDA9D5E4F6F766B39, 32, []);
    FinalizeNone(0xDA9D5E4F6F766B59);
  }

  lemma StripeSeededSteps()
    ensures 0x9202FFE5150CAE17 + 32 as word == 0x9202FFE5150CAE37
    ensures Avalanche(0x9202FFE5150CAE37) == 0x26CB9490B48B8A1D
  {
  }

  /** A whole stripe. With a seed. */
  lemma KnownStripeSeeded()
    ensures Hash(HEAD, 0x9E3779B185EBCA87) == 0x26CB9490B48B8A1D
  {
    hide Hash, End, Finalize, Avalanche, Short, Init, Stripe, Merge, Little4, WordStep, ByteStep, Little8, LongStep;
    StripeSeededSteps();
    assert HEAD + [] == HEAD;
    HeadMainSeeded();
    LongHash(HEAD, [], 0x9E3779B185EBCA87, 32);
    EndIs(0x9202FFE5150CAE17, 32, []);
    FinalizeNone(0x9202FFE5150CAE37);
  }

  lemma RestSteps()
    ensures 0xDA9D5E4F6F766B39 + 45 as word == 0xDA9D5E4F6F766B66
    ensures Little8(1, 2, 3, 4, 5, 6, 7, 8) == 0x0807060504030201
    ensures LongStep(0xDA9D5E4F6F766B66, 0x0807060504030201) == 0x1155AD63FA9C7105
    ensures Little4(9, 10, 11, 12) == 0x000000000C0B0A09
    ensures WordStep(0x1155AD63FA9C7105, 0x000000000C0B0A09) == 0x396DD8E27FBA3365
    ensures ByteStep(0x396DD8E27FBA3365, 13) == 0x307B0309DA6C91C3
    ensures Avalanche(0x307B0309DA6C91C3) == 0x93FF0C4FF9A73393
  {
  }

  /** A stripe and a rest that takes every kind of step. */
  lemma KnownRest()
    ensures Hash(HEAD + [1, 2, 3, 4, 5, 6, 7, 8, 9, 10, 11, 12, 13], 0) == 0x93FF0C4FF9A73393
  {
    hide Hash, End, Finalize, Avalanche, Short, Init, Stripe, Merge, Little4, WordStep, ByteStep, Little8, LongStep;
    RestSteps();
    HeadMain();
    LongHash(HEAD, [1, 2, 3, 4, 5, 6, 7, 8, 9, 10, 11, 12, 13], 0, 45);
    EndIs(0xDA9D5E4F6F766B39, 45, [1, 2, 3, 4, 5, 6, 7, 8, 9, 10, 11, 12, 13]);
    assert [1, 2, 3, 4, 5, 6, 7, 8, 9, 10, 11, 12, 13] == [1, 2, 3, 4, 5, 6, 7, 8] + [9, 10, 11, 12, 13];
    FinalizeLong(0xDA9D5E4F6F766B66, 1, 2, 3, 4, 5, 6, 7, 8, [9, 10, 11, 12, 13]);
    assert [9, 10, 11, 12, 13] == [9, 10, 11, 12] + [13];
    FinalizeWord(0x1155AD63FA9C7105, 9, 10, 11, 12, [13]);
    assert [13] == [13] + [];
    FinalizeByte(0x396DD8E27FBA3365, 13, []);
    FinalizeNone(0x307B0309DA6C91C3);
  }

  lemma RestSeededSteps()
    ensures 0x9202FFE5150CAE17 + 45 as word == 0x9202FFE5150CAE44
    ensures Little8(1, 2, 3, 4, 5, 6, 7, 8) == 0x0807060504030201
    ensures LongStep(0x9202FFE5150CAE44, 0x0807060504030201) == 0x81E1731DA08CB038
    ensures Little4(9, 10, 11, 12) == 0x000000000C0B0A09
    ensures WordStep(0x81E1731DA08CB038, 0x000000000C0B0A09) == 0x3805121B9BC97EAE
    ensures ByteStep(0x3805121B9BC97EAE, 13) == 0x0BEDDC14817B1882
    ensures Avalanche(0x0BEDDC14817B1882) == 0x566539E03AEFDB88
  {
  }

  /** A stripe and a rest that takes every kind of step. With a seed. */
  lemma KnownRestSeeded()
    ensures Hash(HEAD + [1, 2, 3, 4, 5, 6, 7, 8, 9, 10, 11, 12, 13], 0x9E3779B185EBCA87) == 0x566539E03AEFDB88
  {
    hide Hash, End, Finalize, Avalanche, Short, Init, Stripe, Merge, Little4, WordStep, ByteStep, Little8, LongStep;
    RestSeededSteps();
    HeadMainSeeded();
    LongHash(HEAD, [1, 2, 3, 4, 5, 6, 7, 8, 9, 10, 11, 12, 13], 0x9E3779B185EBCA87, 45);
    EndIs(0x9202FFE5150CAE17, 45, [1, 2, 3, 4, 5, 6, 7, 8, 9, 10, 11, 12, 13]);
    assert [1, 2, 3, 4, 5, 6, 7, 8, 9, 10, 11, 12, 13] == [1, 2, 3, 4, 5, 6, 7, 8] + [9, 10, 11, 12, 13];
    FinalizeLong(0x9202FFE5150CAE44, 1, 2, 3, 4, 5, 6, 7, 8, [9, 10, 11, 12, 13]);
    assert [9, 10, 11, 12, 13] == [9, 10, 11, 12] + [13];
    FinalizeWord(0x81E1731DA08CB038, 9, 10, 11, 12, [13]);
    assert [13] == [13] + [];
    FinalizeByte(0x3805121B9BC97EAE, 13, []);
    FinalizeNone(0x0BEDDC14817B1882);
  }
}
