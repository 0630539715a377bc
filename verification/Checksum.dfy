/** The Internet checksum of include/checksum.h against the one's-complement sum of RFC 1071. */
module Checksums {
  import opened Types

  const U32 := 0x1_0000_0000
  const U16 := 0x1_0000

  /** The byte order in which the host loads and stores a u16. */
  datatype Order = Little | Big

  function Word(o: Order, x: u8, y: u8): u16 {
    match o
    case Little => x + 256 * y
    case Big => 256 * x + y
  }

  function Store16(o: Order, w: u16): (b: seq<u8>)
    ensures |b| == 2 && Word(o, b[0], b[1]) == w
  {
    match o
    case Little => [w % 256, w / 256]
    case Big => [w / 256, w % 256]
  }

  /** The plain sum of the 16-bit words of b. */
  function WordSum(o: Order, b: seq<u8>): (s: nat)
    ensures s <= (|b| / 2) * 0xFFFF
  {
    if |b| < 2 then 0 else Word(o, b[0], b[1]) + WordSum(o, b[2..])
  }

  // ---------------------------------------------------------------------------------------------
  // The code

  /** What a u32 keeps of a number. */
  function Low32(n: nat): u32 {
    n % U32
  }

  /** Two folds, complement, truncation to 16 bits. */
  function Finish(sum: u32): u16 {
    var once := sum / U16 + sum % U16;
    var twice := once + once / U16;
    0xFFFF - twice % U16
  }

  /** checksum: the accumulator is a u32 and wraps. */
  method Checksum(o: Order, buf: array<u8>, off: nat, nbytes: nat, init: u32) returns (r: u16)
    requires nbytes % 2 == 0 && off + nbytes <= buf.Length
    ensures r == Finish(Low32(init + WordSum(o, buf[off..off + nbytes])))
  {
    hide Finish, Word, Low32, WordSum, Add32;
    assert Low32(init) == init by {
      Small(init);
    }
    ghost var b, pairs, done: nat := buf[off..off + nbytes], nbytes / 2, init;
    var sum: u32 := init;
    var ptr, left := off, nbytes;
    assert b[0..] == b;
    while left > 1
      invariant off <= ptr && 0 <= left == 2 * pairs && ptr + left == off + nbytes
      invariant done + WordSum(o, b[ptr - off..]) == init + WordSum(o, b)
      invariant sum == Low32(done)
    {
      WordSumStep(o, b, ptr - off);
      var w := Word(o, buf[ptr], buf[ptr + 1]);
      AddWrapped(done, w);
      done, pairs := done + w, pairs - 1;
      sum := Add32(sum, w);
      ptr, left := ptr + 2, left - 2;
    }
    WordSumEnd(o, b[ptr - off..]);
    r := Finish(sum);
  }

  lemma WordSumEnd(o: Order, b: seq<u8>)
    requires |b| < 2
    ensures WordSum(o, b) == 0
  {
  }

  /** Addition of a u32 and a u16 in a u32. */
  function Add32(a: u32, b: u16): u32 {
    if a + b < U32 then a + b else a + b - U32
  }

  lemma Small(n: u32)
    ensures Low32(n) == n
  {
  }

  lemma AddWrapped(done: nat, w: u16)
    ensures Add32(Low32(done), w) == Low32(done + w)
  {
  }

  lemma WordSumStep(o: Order, b: seq<u8>, i: nat)
    requires i + 2 <= |b|
    ensures WordSum(o, b[i..]) == Word(o, b[i], b[i + 1]) + WordSum(o, b[i + 2..])
  {
    assert b[i..][2..] == b[i + 2..];
  }

  // ---------------------------------------------------------------------------------------------
  // The reference: 16-bit addition with end-around carry

  function OnesAdd(a: u16, b: u16): u16 {
    if a + b >= U16 then a + b - 0xFFFF else a + b
  }

  /** The one's-complement sum of the words (RFC 1071, section 1). */
  function OnesSum(o: Order, b: seq<u8>): u16 {
    if |b| < 2 then 0 else OnesAdd(Word(o, b[0], b[1]), OnesSum(o, b[2..]))
  }

  /** The one representative of s modulo 65535 in 1..65535, and 0 for 0 itself. */
  function Canonical(s: nat): u16 {
    if s == 0 then 0 else 1 + (s - 1) % 0xFFFF
  }

  lemma CanonicalAdd(a: u16, s: nat)
    ensures OnesAdd(a, Canonical(s)) == Canonical(a + s)
  {
  }

  lemma {:induction false} OnesSumIsCanonical(o: Order, b: seq<u8>)
    ensures OnesSum(o, b) == Canonical(WordSum(o, b))
  {
    if |b| >= 2 {
      OnesSumIsCanonical(o, b[2..]);
      CanonicalAdd(Word(o, b[0], b[1]), WordSum(o, b[2..]));
    }
  }

  /** Two folds are enough for every 32-bit sum. */
  lemma FinishIsExact(sum: u32)
    ensures Finish(sum) == 0xFFFF - Canonical(sum)
  {
    var once := sum / U16 + sum % U16;
    assert sum - once == (sum / U16) * 0xFFFF;
    CanonicalShift(once, sum / U16);
    assert once + (sum / U16) * 0xFFFF == sum;
    if sum > 0 {
      assert once > 0;
    }
  }

  lemma CanonicalShift(s: nat, k: nat)
    requires s > 0 || k == 0
    ensures Canonical(s + k * 0xFFFF) == Canonical(s)
  {
    if k > 0 {
      CanonicalShift(s, k - 1);
      assert s + k * 0xFFFF - 1 == (s + (k - 1) * 0xFFFF - 1) + 0xFFFF;
    }
  }

  lemma CanonicalCongruent(s: nat)
    ensures Canonical(s) % 0xFFFF == s % 0xFFFF
  {
  }

  /** 2^32 is 1 more than a multiple of 65535, so k of them shift a residue by k. */
  lemma ShiftedResidue(s: nat, k: nat)
    requires 0 < k < 0xFFFF
    ensures (s + k * U32) % 0xFFFF != s % 0xFFFF
  {
    var q, t := s / 0xFFFF, s % 0xFFFF;
    assert s + k * U32 == (q + 65537 * k) * 0xFFFF + (t + k);
    if t + k < 0xFFFF {
      Residue(q + 65537 * k, t + k);
    } else {
      Residue(q + 65537 * k + 1, t + k - 0xFFFF);
    }
  }

  lemma Residue(q: nat, t: nat)
    requires t < 0xFFFF
    ensures (q * 0xFFFF + t) % 0xFFFF == t
  {
  }

  /** A wrapped total has a different checksum: fewer than 65535 wraps never cancel out. */
  lemma WrapChanges(s: nat)
    requires s < 0xFFFF * U32
    ensures Canonical(Low32(s)) == Canonical(s) <==> s < U32
  {
    if s >= U32 {
      ShiftedResidue(s % U32, s / U32);
      CanonicalCongruent(s);
      CanonicalCongruent(s % U32);
    }
  }

  /** For every buffer an int can measure, the code computes the checksum of RFC 1071 if and only if the
      plain sum of the words fits the 32-bit accumulator. */
  lemma {:induction false} ChecksumExactly(o: Order, b: seq<u8>)
    requires |b| < 0x8000_0000
    ensures Finish(Low32(WordSum(o, b))) == 0xFFFF - OnesSum(o, b) <==> WordSum(o, b) < U32
  {
    OnesSumIsCanonical(o, b);
    FinishIsExact(Low32(WordSum(o, b)));
    WrapChanges(WordSum(o, b));
  }

  /** Up to 131074 bytes the sum always fits. */
  lemma {:induction false} SmallBuffersFit(o: Order, b: seq<u8>)
    requires |b| <= 131074
    ensures WordSum(o, b) < U32
    ensures Finish(Low32(WordSum(o, b))) == 0xFFFF - OnesSum(o, b)
  {
    ChecksumExactly(o, b);
  }

  lemma {:induction false} OnesOverflow(o: Order, n: nat)
    ensures WordSum(o, seq(2 * n, i => 0xFF)) == n * 0xFFFF
  {
    if n > 0 {
      OnesOverflow(o, n - 1);
      assert seq(2 * n, i => 0xFF as u8)[2..] == seq(2 * (n - 1), i => 0xFF as u8);
    }
  }

  /** And the bound is tight: two bytes more can overflow. No frame is that long. */
  lemma {:induction false} BoundIsTight(o: Order)
    ensures var b := seq(131076, i => 0xFF);
            Finish(Low32(WordSum(o, b))) != 0xFFFF - OnesSum(o, b)
  {
    OnesOverflow(o, 65538);
    ChecksumExactly(o, seq(131076, i => 0xFF));
  }

  // ---------------------------------------------------------------------------------------------
  // A checksum stored into the region it covers

  lemma {:induction false} WordSumSplit(o: Order, a: seq<u8>, b: seq<u8>)
    requires |a| % 2 == 0
    ensures WordSum(o, a + b) == WordSum(o, a) + WordSum(o, b)
  {
    if a == [] {
      assert a + b == b;
    } else {
      assert (a + b)[2..] == a[2..] + b;
      WordSumSplit(o, a[2..], b);
    }
  }

  /** b with the 16-bit field at byte i set to w. */
  function WithField(o: Order, b: seq<u8>, i: nat, w: u16): (r: seq<u8>)
    requires i + 2 <= |b|
    ensures |r| == |b|
  {
    b[..i] + Store16(o, w) + b[i + 2..]
  }

  lemma FieldSum(o: Order, b: seq<u8>, i: nat, w: u16)
    requires i + 2 <= |b| && i % 2 == 0
    ensures WordSum(o, WithField(o, b, i, w)) == WordSum(o, WithField(o, b, i, 0)) + w
  {
    WordSumSplit(o, b[..i] + Store16(o, w), b[i + 2..]);
    WordSumSplit(o, b[..i], Store16(o, w));
    WordSumSplit(o, b[..i] + Store16(o, 0), b[i + 2..]);
    WordSumSplit(o, b[..i], Store16(o, 0));
    StoredSum(o, w);
    StoredSum(o, 0);
  }

  lemma StoredSum(o: Order, w: u16)
    ensures WordSum(o, Store16(o, w)) == w
  {
    assert Store16(o, w)[2..] == [];
  }

  /** The value the code stores: computed with the field zeroed. */
  function FieldChecksum(o: Order, b: seq<u8>, i: nat): u16
    requires i + 2 <= |b|
  {
    Finish(Low32(WordSum(o, WithField(o, b, i, 0))))
  }

  /** Verify to zero: with the computed value in its field, the checksum of the whole region is 0, the
      region of all zeros included. */
  lemma {:induction false} StoredChecksumVerifies(o: Order, b: seq<u8>, i: nat)
    requires i + 2 <= |b| <= 131074 && i % 2 == 0
    ensures Finish(Low32(WordSum(o, WithField(o, b, i, FieldChecksum(o, b, i))))) == 0
  {
    var c, s := FieldChecksum(o, b, i), WordSum(o, WithField(o, b, i, 0));
    var total := WordSum(o, WithField(o, b, i, c));
    SmallBuffersFit(o, WithField(o, b, i, 0));
    SmallBuffersFit(o, WithField(o, b, i, c));
    OnesSumIsCanonical(o, WithField(o, b, i, 0));
    OnesSumIsCanonical(o, WithField(o, b, i, c));
    FieldSum(o, b, i, c);
    Completed(s);
  }

  lemma Completed(s: nat)
    ensures Canonical(s + (0xFFFF - Canonical(s))) == 0xFFFF
  {
    if s > 0 {
      assert s + 0xFFFF - Canonical(s) == 0xFFFF + ((s - 1) / 0xFFFF) * 0xFFFF;
      CanonicalShift(0xFFFF, (s - 1) / 0xFFFF);
    }
  }

  // ---------------------------------------------------------------------------------------------
  // Byte-order independence

  function Swap(w: u16): u16 {
    (w % 256) * 256 + w / 256
  }

  /** The sum of the bytes at even places. */
  function EvenBytes(b: seq<u8>): nat {
    if |b| < 2 then 0 else b[0] + EvenBytes(b[2..])
  }

  lemma {:induction false} SumsDiffer(b: seq<u8>)
    ensures 256 * WordSum(Big, b) == WordSum(Little, b) + 0xFFFF * EvenBytes(b)
  {
    if |b| >= 2 {
      SumsDiffer(b[2..]);
    }
  }

  lemma CanonicalUnique(a: u16, b: u16, k: int)
    requires a - b == k * 0xFFFF && (a == 0 <==> b == 0)
    ensures a == b
  {
  }

  /** The one's-complement sum of byte-swapped words is the byte-swapped sum (RFC 1071, section 2). */
  lemma {:induction false} SumsSwap(b: seq<u8>)
    ensures Canonical(WordSum(Little, b)) == Swap(Canonical(WordSum(Big, b)))
  {
    var l, g := WordSum(Little, b), WordSum(Big, b);
    SumsDiffer(b);
    var cl, cg := Canonical(l), Canonical(g);
    if g == 0 {
      assert l == 0;
    } else {
      assert l != 0 by {
        if l == 0 {
          ZeroSums(b);
        }
      }
      assert l == cl + ((l - 1) / 0xFFFF) * 0xFFFF;
      assert g == cg + ((g - 1) / 0xFFFF) * 0xFFFF;
      assert 256 * cg - Swap(cg) == (cg / 256) * 0xFFFF;
      CanonicalUnique(cl, Swap(cg),
                      256 * ((g - 1) / 0xFFFF) - EvenBytes(b) - (l - 1) / 0xFFFF + cg / 256);
    }
  }

  lemma ZeroSums(b: seq<u8>)
    requires WordSum(Little, b) == 0
    ensures WordSum(Big, b) == 0
  {
  }

  /** Whatever the byte order of the host, the same two bytes are stored for the checksum of the same
      region: that is why the code stores it without htons. */
  lemma {:induction false} StoredBytesAgree(b: seq<u8>)
    requires |b| <= 131074
    ensures Store16(Little, Finish(Low32(WordSum(Little, b)))) == Store16(Big, Finish(Low32(WordSum(Big, b))))
  {
    SmallBuffersFit(Little, b);
    SmallBuffersFit(Big, b);
    OnesSumIsCanonical(Little, b);
    OnesSumIsCanonical(Big, b);
    SumsSwap(b);
    SwapStored(Canonical(WordSum(Big, b)));
  }

  lemma SwapStored(w: u16)
    ensures Store16(Little, 0xFFFF - Swap(w)) == Store16(Big, 0xFFFF - w)
  {
    var h, l := w / 256, w % 256;
    DivMod(255 - l, 255 - h);
    DivMod(255 - h, 255 - l);
  }

  lemma DivMod(h: nat, l: nat)
    requires l < 256
    ensures (h * 256 + l) / 256 == h && (h * 256 + l) % 256 == l
  {
  }
}
