/** Bit strings, most significant bit first, and the numbers they stand for. */
module BitString {
  import opened Arith

  type Bits = seq<bool>

  function BitValue(b: bool): nat
  {
    if b then 1 else 0
  }

  /** The number that a bit string spells. */
  function Value(s: Bits): (v: nat)
  {
    if s == [] then 0 else 2 * Value(s[..|s| - 1]) + BitValue(s[|s| - 1])
  }

  /** The low n bits of v. */
  function Word(v: nat, n: nat): (s: Bits)
    ensures |s| == n
  {
    if n == 0 then [] else Word(v / 2, n - 1) + [v % 2 == 1]
  }

  /** The i-th bit of a string that is followed by zeros forever. */
  function BitAt(s: Bits, i: nat): (b: nat)
    ensures b <= 1
  {
    if i < |s| then BitValue(s[i]) else 0
  }

  /** The number spelled by the first l bits of a string that is followed by zeros forever. */
  function Peek(s: Bits, l: nat): (v: nat)
  {
    if l == 0 then 0 else 2 * Peek(s, l - 1) + BitAt(s, l - 1)
  }

  lemma {:induction false} ValueBound(s: Bits)
    ensures Value(s) < Pow2(|s|)
  {
    if s != [] {
      ValueBound(s[..|s| - 1]);
    }
  }

  lemma {:induction false} ValueAppend(a: Bits, b: Bits)
    ensures Value(a + b) == Value(a) * Pow2(|b|) + Value(b)
    decreases |b|
  {
    hide Value, Pow2;
    NoValue();
    if b == [] {
      assert a + b == a;
    } else {
      var b' := b[..|b| - 1];
      assert (a + b)[..|a + b| - 1] == a + b';
      ValueAppend(a, b');
      ValueStep(b);
      ValueStep(a + b);
      Pow2Double(|b'|);
      DoubleFactor(Value(a), Pow2(|b'|));
    }
  }

  lemma NoValue()
    ensures Value([]) == 0 && Pow2(0) == 1
  {
  }

  lemma ValueStep(s: Bits)
    requires s != []
    ensures Value(s) == 2 * Value(s[..|s| - 1]) + BitValue(s[|s| - 1])
  {
  }

  lemma {:induction false} WordOfValue(s: Bits)
    ensures Word(Value(s), |s|) == s
  {
    if s != [] {
      WordOfValue(s[..|s| - 1]);
      assert Value(s) / 2 == Value(s[..|s| - 1]);
      assert s == s[..|s| - 1] + [s[|s| - 1]];
    }
  }

  lemma {:induction false} ValueOfWord(v: nat, n: nat)
    requires v < Pow2(n)
    ensures Value(Word(v, n)) == v
  {
    if n > 0 {
      ValueOfWord(v / 2, n - 1);
      var s := Word(v, n);
      assert s[..|s| - 1] == Word(v / 2, n - 1);
    }
  }

  /** Bit k of a word of n bits stands for 2^(n-1-k). */
  lemma {:induction false} WordBits(v: nat, n: nat, k: nat)
    requires k < n
    ensures Word(v, n)[k] <==> (v / Pow2(n - 1 - k)) % 2 == 1
    decreases n
  {
    if k < n - 1 {
      WordBits(v / 2, n - 1, k);
      NestedHalf(v, Pow2(n - 2 - k));
    } else {
      assert v / Pow2(0) == v;
    }
  }

  /** Only the low n bits of v matter. */
  lemma {:induction false} WordLow(v: nat, w: nat, k: nat, n: nat)
    requires v == k * Pow2(n) + w
    ensures Word(v, n) == Word(w, n)
  {
    if n > 0 {
      HalfOf(k, Pow2(n - 1), v, w);
      WordLow(v / 2, w / 2, k, n - 1);
    }
  }

  lemma HalfOf(k: nat, p: nat, v: nat, w: nat)
    requires v == k * (2 * p) + w
    ensures v / 2 == k * p + w / 2 && v % 2 == w % 2
  {
    assert k * (2 * p) == 2 * (k * p);
  }

  lemma {:induction false} WordAppend(v: nat, m: nat, w: nat, n: nat)
    requires w < Pow2(n)
    ensures Word(v * Pow2(n) + w, m + n) == Word(v, m) + Word(w, n)
    decreases n
  {
    if n == 0 {
      assert v * Pow2(0) == v;
    } else {
      HalfOf(v, Pow2(n - 1), v * Pow2(n) + w, w);
      WordAppend(v, m, w / 2, n - 1);
      assert Word(v * Pow2(n) + w, m + n) == Word(v * Pow2(n - 1) + w / 2, m + (n - 1)) + [w % 2 == 1];
    }
  }

  lemma {:induction false} PeekIsValue(s: Bits, l: nat)
    requires l <= |s|
    ensures Peek(s, l) == Value(s[..l])
  {
    if l > 0 {
      PeekIsValue(s, l - 1);
      assert s[..l][..l - 1] == s[..l - 1];
    }
  }

  lemma {:induction false} PeekBound(s: Bits, l: nat)
    ensures Peek(s, l) < Pow2(l)
  {
    if l > 0 {
      PeekBound(s, l - 1);
    }
  }

  /** The first l bits are the first m of them and what is left of the next l - m. */
  lemma {:induction false} PeekSplit(s: Bits, m: nat, l: nat)
    requires m <= l
    ensures Peek(s, m) * Pow2(l - m) <= Peek(s, l) < (Peek(s, m) + 1) * Pow2(l - m)
    decreases l
  {
    hide BitAt;
    if m < l {
      PeekSplit(s, m, l - 1);
      var p, x := Pow2(l - 1 - m), Peek(s, m);
      assert Pow2(l - m) == 2 * p;
      DoubleFactor(x, p);
      DoubleFactor(x + 1, p);
    }
  }

  /** Appending zeros changes nothing. */
  lemma {:induction false} PeekPrefix(s: Bits, t: Bits, l: nat)
    requires forall i :: 0 <= i < l ==> BitAt(s, i) == BitAt(t, i)
    ensures Peek(s, l) == Peek(t, l)
  {
    if l > 0 {
      PeekPrefix(s, t, l - 1);
    }
  }

  lemma PeekWord(v: nat, n: nat, rest: Bits)
    requires v < Pow2(n)
    ensures Peek(Word(v, n) + rest, n) == v
  {
    var s := Word(v, n) + rest;
    PeekIsValue(s, n);
    assert s[..n] == Word(v, n);
    ValueOfWord(v, n);
  }

  /** A string with its first n bits taken off; nothing is left of a string that is too short. */
  function Tail(s: Bits, n: nat): Bits
  {
    if n <= |s| then s[n..] else []
  }

  lemma TailTail(s: Bits, m: nat, n: nat)
    ensures Tail(Tail(s, m), n) == Tail(s, m + n)
  {
  }

  /** The upper and the lower part of a word. */
  lemma {:induction false} WordSplit(v: nat, m: nat, n: nat)
    requires n <= m
    ensures Word(v, m)[..n] == Word(v / Pow2(m - n), n)
    ensures Word(v, m)[n..] == Word(v, m - n)
    decreases m
  {
    if n < m {
      WordSplit(v / 2, m - 1, n);
      var w := Word(v / 2, m - 1);
      assert Word(v, m) == w + [v % 2 == 1];
      assert Word(v, m)[..n] == w[..n];
      assert Word(v, m)[n..] == w[n..] + [v % 2 == 1];
      NestedHalf(v, Pow2(m - 1 - n));
    } else {
      assert v / Pow2(0) == v;
      assert Word(v, m)[n..] == [];
    }
  }

  lemma NestedHalf(v: nat, p: nat)
    requires p >= 1
    ensures v / 2 / p == v / (2 * p)
  {
    var q, r := v / 2 / p, v / 2 % p;
    assert v / 2 == q * p + r;
    assert v == q * (2 * p) + (2 * r + v % 2) by { DoubleFactor(q, p); }
    QuotientIs(v, 2 * p, q, 2 * r + v % 2);
  }

  lemma QuotientIs(v: nat, d: nat, q: nat, r: nat)
    requires d >= 1 && v == q * d + r && r < d
    ensures v / d == q && v % d == r
  {
    var q', r' := v / d, v % d;
    assert v == q' * d + r';
    if q' < q {
      ScaleMono(d, q' + 1, q);
    } else if q < q' {
      ScaleMono(d, q + 1, q');
    }
  }

  lemma ValueOfLow(v: nat, n: nat)
    ensures Value(Word(v, n)) == v % Pow2(n)
  {
    hide Pow2, Value, Word;
    var p := Pow2(n);
    DivMod(v, p);
    WordLow(v, v % p, v / p, n);
    ValueOfWord(v % p, n);
  }

  lemma DivMod(v: nat, p: nat)
    requires p >= 1
    ensures v == (v / p) * p + v % p && v % p < p
  {
  }

  /** Cutting a number to at least m bits keeps its low m bits. */
  lemma WordOfLow(v: nat, m: nat, n: nat)
    requires m <= n
    ensures Word(v % Pow2(n), m) == Word(v, m)
  {
    hide Pow2, Word;
    var q := v / Pow2(n);
    DivMod(v, Pow2(n));
    Pow2Add(n - m, m);
    Regroup(q, Pow2(n - m), Pow2(m));
    WordLow(v, v % Pow2(n), q * Pow2(n - m), m);
  }

  lemma Regroup(x: int, y: int, z: int)
    ensures x * (y * z) == (x * y) * z
  {
  }
}
