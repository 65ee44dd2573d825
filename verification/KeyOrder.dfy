/**
compareFast: keys compared a 32-bit word at a time. The first key is padded with zeros in memory up to the end of
the second key's last word, so that whole words can be compared; the second is masked behind its end.
*/
module KeyOrder {
  import opened Bytes

  datatype Order = Less | Equal | Greater

  /** Byte-lexicographic order, a proper prefix first. */
  function Lex(a: seq<byte>, b: seq<byte>): Order {
    if a == [] then (if b == [] then Equal else Less)
    else if b == [] then Greater
    else if a[0] < b[0] then Less
    else if a[0] > b[0] then Greater
    else Lex(a[1..], b[1..])
  }

  function Sign(n: int): Order { if n < 0 then Less else if n == 0 then Equal else Greater }

  // ---------------------------------------------------------------- a total order

  lemma {:induction false} LexEqual(a: seq<byte>, b: seq<byte>)
    ensures Lex(a, b) == Equal <==> a == b
  {
    if a != [] && b != [] && a[0] == b[0] {
      LexEqual(a[1..], b[1..]);
      assert a == [a[0]] + a[1..] && b == [b[0]] + b[1..];
    }
  }

  lemma {:induction false} LexAntisymmetric(a: seq<byte>, b: seq<byte>)
    ensures Lex(a, b) == Less <==> Lex(b, a) == Greater
  {
    if a != [] && b != [] {
      LexAntisymmetric(a[1..], b[1..]);
    }
  }

  lemma {:induction false} LexTransitive(a: seq<byte>, b: seq<byte>, c: seq<byte>)
    requires Lex(a, b) == Less && Lex(b, c) == Less
    ensures Lex(a, c) == Less
  {
    if a != [] && a[0] == b[0] == c[0] {
      LexTransitive(a[1..], b[1..], c[1..]);
    }
  }

  // ---------------------------------------------------------------- words

  /** Four bytes as ntohl reads them. */
  function Word(a: nat, b: nat, c: nat, d: nat): nat { 0x100_0000 * a + 0x1_0000 * b + 0x100 * c + d }

  /** The first `i` bytes agree and the next decides. */
  predicate DecidedAt(a: seq<byte>, b: seq<byte>, i: nat, order: Order) {
    i < |a| && i < |b| && a[..i] == b[..i] && !order.Equal? && (a[i] < b[i] <==> order.Less?) && a[i] != b[i]
  }

  lemma {:induction false} LexDecided(a: seq<byte>, b: seq<byte>, i: nat, order: Order)
    requires DecidedAt(a, b, i, order)
    ensures Lex(a, b) == order
  {
    if i > 0 {
      assert a[0] == a[..i][0] == b[..i][0] == b[0];
      assert a[1..][..i - 1] == a[..i][1..] && b[1..][..i - 1] == b[..i][1..];
      LexDecided(a[1..], b[1..], i - 1, order);
    }
  }

  lemma {:induction false} LexPrefix(a: seq<byte>, b: seq<byte>)
    requires |a| <= |b| && b[..|a|] == a
    ensures Lex(a, b) == Sign(|a| - |b|) && Lex(b, a) == Sign(|b| - |a|)
  {
    if a != [] {
      assert b[0] == b[..|a|][0] == a[0];
      assert b[1..][..|a| - 1] == b[..|a|][1..];
      LexPrefix(a[1..], b[1..]);
    }
  }

  /** Words compare by their first different byte. */
  lemma WordOrder(a0: byte, a1: byte, a2: byte, a3: byte, b0: byte, b1: byte, b2: byte, b3: byte) returns (i: nat)
    requires Word(a0, a1, a2, a3) != Word(b0, b1, b2, b3)
    ensures i < 4 && [a0, a1, a2, a3][..i] == [b0, b1, b2, b3][..i] && [a0, a1, a2, a3][i] != [b0, b1, b2, b3][i]
    ensures [a0, a1, a2, a3][i] < [b0, b1, b2, b3][i] <==> Word(a0, a1, a2, a3) < Word(b0, b1, b2, b3)
  {
    i := if a0 != b0 then 0 else if a1 != b1 then 1 else if a2 != b2 then 2 else 3;
  }

  lemma WordEqual(a0: byte, a1: byte, a2: byte, a3: byte, b0: byte, b1: byte, b2: byte, b3: byte)
    requires Word(a0, a1, a2, a3) == Word(b0, b1, b2, b3)
    ensures a0 == b0 && a1 == b1 && a2 == b2 && a3 == b3
  {
  }

  // ---------------------------------------------------------------- comparison

  /** End of the last word of a key of `n` bytes. */
  function WordEnd(n: nat): (m: nat)
    ensures n <= m < n + 4 && m % 4 == 0
  {
    (n + 3) / 4 * 4
  }

  /** Byte `i` of the second key's words: zero behind the key. */
  function Masked(b: seq<byte>, i: nat): byte { if i < |b| then b[i] else 0 }

  /** Memory holds the key and, up to the end of the other key's last word, zeros. */
  predicate Padded(memory: seq<byte>, a: seq<byte>, n: nat) {
    && |a| <= |memory| && WordEnd(n) <= |memory| && memory[..|a|] == a
    && forall i :: |a| <= i < WordEnd(n) ==> memory[i] == 0
  }

  /** The memory of the first key and the masked words of the second agree on the first `k` bytes. */
  ghost predicate Agree(memory: seq<byte>, b: seq<byte>, k: nat) {
    k <= |memory| && forall i :: 0 <= i < k ==> memory[i] == Masked(b, i)
  }

  /** A difference inside the words of the second key decides the order of the keys. */
  lemma DifferenceDecides(memory: seq<byte>, a: seq<byte>, b: seq<byte>, i: nat)
    requires Padded(memory, a, |b|) && Agree(memory, b, i) && i < WordEnd(|b|) && memory[i] != Masked(b, i)
    ensures Lex(a, b) == if memory[i] < Masked(b, i) then Less else Greater
  {
    hide Lex, WordEnd;
    var n := Min(|a|, |b|);
    if i < n {
      assert a[i] == memory[..|a|][i];
      forall j | 0 <= j < i ensures a[j] == b[j] { assert a[j] == memory[..|a|][j]; }
      LexDecided(a, b, i, if a[i] < b[i] then Less else Greater);
    } else if |a| <= i {
      assert i < |b|;
      forall j | 0 <= j < |a| ensures a[j] == b[j] { assert a[j] == memory[..|a|][j]; }
      LexPrefix(a, b);
    } else {
      assert a[i] == memory[..|a|][i];
      forall j | 0 <= j < |b| ensures a[j] == b[j] { assert a[j] == memory[..|a|][j]; }
      LexPrefix(b, a);
    }
  }

  /** Without a difference the shorter key is a prefix of the longer one. */
  lemma NoDifference(memory: seq<byte>, a: seq<byte>, b: seq<byte>)
    requires Padded(memory, a, |b|) && Agree(memory, b, WordEnd(|b|))
    ensures Lex(a, b) == Sign(|a| - |b|)
  {
    hide Lex, WordEnd;
    var n := Min(|a|, |b|);
    forall j | 0 <= j < n ensures a[j] == b[j] { assert a[j] == memory[..|a|][j]; }
    if |a| <= |b| {
      LexPrefix(a, b);
    } else {
      LexPrefix(b, a);
    }
  }

  /** compareFast has the sign of the lexicographic order. */
  method CompareFast(memory: seq<byte>, a: seq<byte>, b: seq<byte>) returns (r: int)
    requires Padded(memory, a, |b|)
    ensures Sign(r) == Lex(a, b)
  {
    hide Lex, Padded;
    assert WordEnd(|b|) <= |memory| by { PaddedSize(memory, a, |b|); }
    var k, remaining := 0, |b|;
    while remaining >= 4
      invariant 0 <= remaining && k + remaining == |b| && k % 4 == 0 && Agree(memory, b, k)
    {
      r := CompareWord(memory, a, b, k, b[k + 1], b[k + 2], b[k + 3]);
      if r != 0 { return; }
      k := k + 4;
      remaining := remaining - 4;
    }
    if remaining > 0 {
      r := CompareWord(memory, a, b, k,
                       if remaining >= 2 then b[k + 1] else 0, if remaining == 3 then b[k + 2] else 0, 0);
      if r != 0 { return; }
      k := k + 4;
    }
    NoDifference(memory, a, b);
    r := |a| - |b|;
  }

  /** One word of each key: decided, or equal so far. */
  method CompareWord(memory: seq<byte>, ghost a: seq<byte>, b: seq<byte>, k: nat, b1: byte, b2: byte, b3: byte)
      returns (r: int)
    requires Padded(memory, a, |b|) && k < |b| && k + 4 <= WordEnd(|b|) <= |memory| && Agree(memory, b, k)
    requires b1 == Masked(b, k + 1) && b2 == Masked(b, k + 2) && b3 == Masked(b, k + 3)
    ensures r != 0 ==> Sign(r) == Lex(a, b)
    ensures r == 0 ==> Agree(memory, b, k + 4)
  {
    hide Lex, Padded, Word, WordEnd;
    var aVal := Word(memory[k], memory[k + 1], memory[k + 2], memory[k + 3]);
    var bVal := Word(b[k], b1, b2, b3);
    if aVal != bVal {
      ghost var i := WordOrder(memory[k], memory[k + 1], memory[k + 2], memory[k + 3], b[k], b1, b2, b3);
      AgreeUpTo(memory, b, k, b1, b2, b3, i);
      DifferenceDecides(memory, a, b, k + i);
      r := if aVal > bVal then 1 else -1;
    } else {
      WordEqual(memory[k], memory[k + 1], memory[k + 2], memory[k + 3], b[k], b1, b2, b3);
      r := 0;
    }
  }

  lemma AgreeUpTo(memory: seq<byte>, b: seq<byte>, k: nat, b1: byte, b2: byte, b3: byte, i: nat)
    requires Agree(memory, b, k) && k < |b| && k + 4 <= |memory| && i < 4
    requires b1 == Masked(b, k + 1) && b2 == Masked(b, k + 2) && b3 == Masked(b, k + 3)
    requires [memory[k], memory[k + 1], memory[k + 2], memory[k + 3]][..i] == [b[k], b1, b2, b3][..i]
    ensures Agree(memory, b, k + i)
    ensures memory[k + i] == [memory[k], memory[k + 1], memory[k + 2], memory[k + 3]][i]
    ensures Masked(b, k + i) == [b[k], b1, b2, b3][i]
  {
    var m, w := [memory[k], memory[k + 1], memory[k + 2], memory[k + 3]], [b[k], b1, b2, b3];
    forall j | 0 <= j < k + i ensures memory[j] == Masked(b, j) {
      if j >= k {
        var d := j - k;
        assert m[d] == m[..i][d] == w[..i][d] == w[d];
      }
    }
  }

  lemma PaddedSize(memory: seq<byte>, a: seq<byte>, n: nat)
    requires Padded(memory, a, n)
    ensures WordEnd(n) <= |memory|
  {
  }

  /** As an order of keys, compareFast is total: equal only for equal keys, antisymmetric and transitive. */
  lemma TotalOrder(a: seq<byte>, b: seq<byte>, c: seq<byte>)
    ensures Lex(a, b) == Equal <==> a == b
    ensures Lex(a, b) == Less <==> Lex(b, a) == Greater
    ensures Lex(a, b) == Less && Lex(b, c) == Less ==> Lex(a, c) == Less
  {
    hide Lex;
    LexEqual(a, b);
    LexAntisymmetric(a, b);
    if Lex(a, b) == Less && Lex(b, c) == Less { LexTransitive(a, b, c); }
  }
}
