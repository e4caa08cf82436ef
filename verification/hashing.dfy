/** The prefix hash of markov.c:38-51: a multiplicative polynomial over every
    byte of every prefix word, in an `unsigned int`, reduced modulo `NHASH`. */
module Hashing {
  import opened Words

  /** `MULTIPLIER` of markov.c:40. */
  const MULTIPLIER: nat := 31
  /** Bucket count `NHASH` of markov.c:9 (a prime). */
  const NHASH: nat := 4093
  /** An `unsigned int` wraps modulo 2^32. */
  const UINT_MOD: nat := 0x1_0000_0000

  type uint32 = x: int | 0 <= x < 0x1_0000_0000

  /** One step `h = MULTIPLIER * h + *p` of markov.c:49, with 32-bit wrap-around. */
  function Mix(h: uint32, b: uint8): uint32
  {
    (MULTIPLIER * h + b as int) % UINT_MOD
  }

  /** The inner loop of markov.c:48-49: `Mix` every byte of `bytes` into `h`, in order. */
  function FoldBytes(h: uint32, bytes: seq<uint8>): uint32
    decreases |bytes|
  {
    if |bytes| == 0 then h else FoldBytes(Mix(h, bytes[0]), bytes[1..])
  }

  /** The outer loop of markov.c:47: `h` after the first `i` words. */
  function HashUpTo(p: Prefix, i: nat): uint32
    requires i <= NPREF
  {
    if i == 0 then 0 else FoldBytes(HashUpTo(p, i - 1), p[i - 1])
  }

  /** The bucket of a prefix (markov.c:46-50). */
  function Hash(p: Prefix): (r: nat)
    ensures r < NHASH
  {
    HashUpTo(p, NPREF) % NHASH
  }

  /** The bytes of the words, word after word, without separators. */
  function Concat(ws: seq<Word>): seq<uint8>
  {
    if |ws| == 0 then [] else Concat(ws[..|ws| - 1]) + ws[|ws| - 1]
  }

  /** Folding a concatenation folds one part after the other. */
  lemma {:induction false} FoldBytesAppend(h: uint32, a: seq<uint8>, b: seq<uint8>)
    ensures FoldBytes(h, a + b) == FoldBytes(FoldBytes(h, a), b)
    decreases |a|
  {
    if |a| == 0 {
      assert a + b == b;
    } else {
      assert (a + b)[1..] == a[1..] + b;
      FoldBytesAppend(Mix(h, a[0]), a[1..], b);
    }
  }

  /** Word boundaries are invisible to the hash: after `i` words, `h` is the
      fold of their concatenated bytes. */
  lemma {:induction false} HashUpToIsFoldOfConcat(p: Prefix, i: nat)
    requires i <= NPREF
    ensures HashUpTo(p, i) == FoldBytes(0, Concat(p[..i]))
  {
    if i > 0 {
      HashUpToIsFoldOfConcat(p, i - 1);
      assert p[..i][..i - 1] == p[..i - 1];
      FoldBytesAppend(0, Concat(p[..i - 1]), p[i - 1]);
    }
  }

  /** The hash sees only the in-order concatenation of the words' bytes:
      equal prefixes always share a bucket, and so do prefixes that merely
      split the same bytes differently. */
  lemma SameBytesSameBucket(p: Prefix, q: Prefix)
    requires Concat(p) == Concat(q)
    ensures Hash(p) == Hash(q)
  {
    HashUpToIsFoldOfConcat(p, NPREF);
    HashUpToIsFoldOfConcat(q, NPREF);
    assert p[..NPREF] == p && q[..NPREF] == q;
  }

  /** Reference value: the same polynomial over unbounded integers,
      h * 31^n + b0 * 31^(n-1) + ... + b(n-1), in Horner form. */
  function Horner(h: int, bytes: seq<uint8>): int
    decreases |bytes|
  {
    if |bytes| == 0 then h else Horner(MULTIPLIER * h + bytes[0] as int, bytes[1..])
  }

  lemma MulModAbsorbs(x: int, b: int)
    ensures (MULTIPLIER * (x % UINT_MOD) + b) % UINT_MOD == (MULTIPLIER * x + b) % UINT_MOD
  {
    var q := x / UINT_MOD;
    assert x == UINT_MOD * q + x % UINT_MOD;
    assert MULTIPLIER * x + b == UINT_MOD * (MULTIPLIER * q) + (MULTIPLIER * (x % UINT_MOD) + b);
  }

  /** Wrapping after every step gives the exact polynomial reduced once at
      the end: the 32-bit overflow of markov.c:49 loses nothing modulo 2^32. */
  lemma {:induction false} FoldBytesIsHornerModulo(h: nat, bytes: seq<uint8>)
    ensures FoldBytes(h % UINT_MOD, bytes) == Horner(h, bytes) % UINT_MOD
    decreases |bytes|
  {
    if |bytes| > 0 {
      MulModAbsorbs(h, bytes[0] as int);
      var h' := MULTIPLIER * h + bytes[0] as int;
      assert Mix(h % UINT_MOD, bytes[0]) == h' % UINT_MOD;
      FoldBytesIsHornerModulo(h', bytes[1..]);
    }
  }

  /** The bucket is the exact polynomial of the concatenated bytes, reduced
      first modulo 2^32 and then modulo `NHASH`. */
  lemma HashIsPolynomial(p: Prefix)
    ensures Hash(p) == Horner(0, Concat(p)) % UINT_MOD % NHASH
  {
    HashUpToIsFoldOfConcat(p, NPREF);
    assert p[..NPREF] == p;
    FoldBytesIsHornerModulo(0, Concat(p));
  }

  /** Distinct prefixes can share a bucket: `("ab", "c")` and `("a", "bc")`
      differ in both words but concatenate to the same bytes. */
  lemma SplitWordsCollide()
    ensures var p: Prefix := [[97, 98], [99]];
            var q: Prefix := [[97], [98, 99]];
            p != q && Hash(p) == Hash(q)
  {
    var p: Prefix := [[97, 98], [99]];
    var q: Prefix := [[97], [98, 99]];
    assert p[0] != q[0];
    assert Concat(p) == [97, 98, 99] by {
      assert p[..1] == [[97, 98]];
      assert p[..1][..0] == [];
    }
    assert Concat(q) == [97, 98, 99] by {
      assert q[..1] == [[97]];
      assert q[..1][..0] == [];
    }
    SameBytesSameBucket(p, q);
  }

  /** The nested loops of markov.c:46-50, scanning each word to its end. */
  method ComputeHash(s: Prefix) returns (r: nat)
    ensures r == Hash(s)
  {
    var h: uint32 := 0;
    var i := 0;
    while i < NPREF
      invariant 0 <= i <= NPREF
      invariant h == HashUpTo(s, i)
    {
      var w := s[i];
      var j := 0;
      while j < |w|
        invariant 0 <= j <= |w|
        invariant FoldBytes(h, w[j..]) == HashUpTo(s, i + 1)
      {
        assert w[j..][1..] == w[j + 1..];
        h := (MULTIPLIER * h + w[j] as int) % UINT_MOD;
        j := j + 1;
      }
      i := i + 1;
    }
    r := h % NHASH;
  }
}
