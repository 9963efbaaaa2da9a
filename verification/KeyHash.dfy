/**
 The key hash of the enriched index, for any mixing arithmetic. Words are their eight little-endian
 bytes: a short key is hashed as one zero-padded word, which the code gathers in three different
 ways that agree.
 */
module KeyHash {
  import opened Json

  type Word = w: bytes | |w| == 8 witness [0, 0, 0, 0, 0, 0, 0, 0]

  /** The arithmetic of the hash: start from a length, fold in a word, finish. */
  datatype Mixer = Mixer(init: nat -> nat, mix: (nat, Word) -> nat, finish: nat -> nat)

  /** The word whose low bytes are c (at most eight), padded with zeros. */
  function Padded(c: bytes): Word
    requires |c| <= 8
  {
    c + seq(8 - |c|, _ => 0)
  }

  function ShiftLeft(w: Word, n: nat): Word
    requires n <= 8
  {
    seq(n, _ => 0) + w[..8 - n]
  }

  /** Keeps the low n bytes of a register. */
  function MaskLow(w: Word, n: nat): Word
    requires n <= 8
  {
    w[..n] + seq(8 - n, _ => 0)
  }

  /** Bitwise or, where the operands only overlap in equal bytes. */
  function Or(a: Word, b: Word): Word
    requires forall k | 0 <= k < 8 :: a[k] == 0 || b[k] == 0 || a[k] == b[k]
  {
    seq(8, k requires 0 <= k < 8 => if a[k] == 0 then b[k] else a[k])
  }

  /** Folds the words at i - 8, i, ... while they end before the last byte, then the last eight bytes. */
  function Fold(m: Mixer, c: bytes, i: nat, h: nat): nat
    requires 8 <= i && 8 <= |c|
    decreases |c| - i
  {
    if i < |c| then Fold(m, c, i + 8, m.mix(h, c[i - 8..i])) else m.mix(h, c[|c| - 8..])
  }

  /** The hash of a key's content bytes. */
  function HashOf(m: Mixer, c: bytes): nat {
    m.finish(if |c| >= 8 then Fold(m, c, 8, m.init(|c|)) else m.mix(m.init(|c|), Padded(c)))
  }

  /** Two overlapping four-byte loads rebuild the padded word. */
  lemma OverlappingLoads(c: bytes)
    requires 4 <= |c| < 8
    ensures var lo, hi := Padded(c[..4]), ShiftLeft(Padded(c[|c| - 4..]), |c| - 4);
            (forall k | 0 <= k < 8 :: lo[k] == 0 || hi[k] == 0 || lo[k] == hi[k]) && Or(lo, hi) == Padded(c)
  {
    var n := |c|;
    var lo, hi, w := Padded(c[..4]), ShiftLeft(Padded(c[n - 4..]), n - 4), Padded(c);
    forall k | 0 <= k < 8
      ensures lo[k] == (if k < 4 then w[k] else 0) && hi[k] == (if n - 4 <= k then w[k] else 0)
    {
    }
  }

  /** The first, middle and last byte rebuild the padded word of one to three bytes. */
  lemma ThreeBytes(c: bytes)
    requires 0 < |c| < 4
    ensures var n := |c|;
            var first, middle, last := Padded(c[..1]), ShiftLeft(Padded([c[n / 2]]), n / 2), ShiftLeft(Padded([c[n - 1]]), n - 1);
            (forall k | 0 <= k < 8 :: first[k] == 0 || middle[k] == 0 || first[k] == middle[k]) &&
            (forall k | 0 <= k < 8 :: Or(first, middle)[k] == 0 || last[k] == 0 || Or(first, middle)[k] == last[k]) &&
            Or(Or(first, middle), last) == Padded(c)
  {
    var n := |c|;
    var first, middle, last, w := Padded(c[..1]), ShiftLeft(Padded([c[n / 2]]), n / 2), ShiftLeft(Padded([c[n - 1]]), n - 1), Padded(c);
    forall k | 0 <= k < 8
      ensures first[k] == (if k == 0 then w[k] else 0)
      ensures middle[k] == (if k == n / 2 then w[k] else 0)
      ensures last[k] == (if k == n - 1 then w[k] else 0)
    {
    }
  }

  /** Hashing from a slice, with every load inside it. */
  method HashKeyContent(m: Mixer, c: bytes) returns (hash: nat)
    ensures hash == HashOf(m, c)
  {
    var n := |c|;
    var h := m.init(n);
    if n >= 8 {
      h := FoldWords(m, c, h);
    } else {
      var w := GatherShort(c);
      h := m.mix(h, w);
    }
    hash := m.finish(h);
  }

  method FoldWords(m: Mixer, c: bytes, start: nat) returns (h: nat)
    requires |c| >= 8
    ensures h == Fold(m, c, 8, start)
  {
    h := start;
    var n, i := |c|, 8;
    while i < n
      invariant 8 <= i && Fold(m, c, i, h) == Fold(m, c, 8, start)
    {
      h := m.mix(h, c[i - 8..i]);
      i := i + 8;
    }
    h := m.mix(h, c[n - 8..]);
  }

  /** A short key as one padded word, from loads that stay inside it. */
  method GatherShort(c: bytes) returns (w: Word)
    requires |c| < 8
    ensures w == Padded(c)
  {
    hide Padded, ShiftLeft, Or;
    var n := |c|;
    if n >= 4 {
      var lo, hi := Padded(c[..4]), ShiftLeft(Padded(c[n - 4..]), n - 4);
      OverlappingLoads(c);
      w := Or(lo, hi);
    } else if n > 0 {
      var first, middle, last := Padded(c[..1]), ShiftLeft(Padded([c[n / 2]]), n / 2), ShiftLeft(Padded([c[n - 1]]), n - 1);
      ThreeBytes(c);
      w := Or(Or(first, middle), last);
    } else {
      assert c == [];
      w := Padded([]);
    }
  }

  /** Hashing the first n bytes of a register, whatever follows them in it. */
  method HashKeyContentWord(m: Mixer, word: Word, n: nat) returns (hash: nat)
    requires n <= 8
    ensures hash == HashOf(m, word[..n])
  {
    assert MaskLow(word, n) == Padded(word[..n]);
    assert n == 8 ==> word[..n][0..] == MaskLow(word, n);
    hash := m.finish(m.mix(m.init(n), MaskLow(word, n)));
  }
}
