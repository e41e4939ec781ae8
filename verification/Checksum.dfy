/** The Internet checksum of `csum` (RFC 1071), on a little-endian host. */
module Checksum {
  import opened Bits
  import opened Messages
  import opened Sequences

  type word = u16

  const M: nat := 0xffff

  function LittleEndian(lo: byte, hi: byte): word {
    lo as int + 0x100 * (hi as int)
  }

  /** The 16-bit words of a buffer; an odd last byte is the low byte of a word of its own. */
  function Words(b: seq<byte>): (ws: seq<word>)
    ensures |ws| == (|b| + 1) / 2
  {
    if b == [] then []
    else if |b| == 1 then [b[0] as int]
    else [LittleEndian(b[0], b[1])] + Words(b[2..])
  }

  function Sum(ws: seq<word>): (s: nat)
    ensures s <= |ws| * M
  {
    if ws == [] then 0 else ws[0] + Sum(ws[1..])
  }

  /** The two folds and the complement at the end of `csum`. */
  function Folded(sum: nat): nat {
    var s := Shr(sum, 16) + And(sum, M);
    s + Shr(s, 16)
  }

  function Finish(sum: nat): word {
    M - Folded(sum) % 0x1_0000
  }

  /** The checksum of a sequence of words. */
  function Check(ws: seq<word>): word {
    Finish(Sum(ws))
  }

  // ---------- Folding ----------

  lemma {:induction false} Pow16()
    ensures Pow2(16) == 0x1_0000
  {
    assert Pow2(0) == 1 && Pow2(1) == 2 && Pow2(2) == 4 && Pow2(3) == 8 && Pow2(4) == 16 && Pow2(5) == 32;
    assert Pow2(6) == 64 && Pow2(7) == 128 && Pow2(8) == 256 && Pow2(9) == 512 && Pow2(10) == 1024;
    assert Pow2(11) == 2048 && Pow2(12) == 4096 && Pow2(13) == 8192 && Pow2(14) == 16384 && Pow2(15) == 32768;
  }

  /** Shifting and masking by 16 bits split a number into quotient and remainder. */
  lemma HalvesOf(x: nat)
    ensures Shr(x, 16) == x / 0x1_0000 && And(x, M) == x % 0x1_0000
  {
    Pow16();
    ShrDivides(x, 16);
    AndLowMask(x, 16);
  }

  /** After the first fold. */
  function Once(sum: nat): nat {
    sum / 0x1_0000 + sum % 0x1_0000
  }

  lemma FoldedIs(sum: nat)
    ensures Folded(sum) == Once(sum) + Once(sum) / 0x1_0000
  {
    HalvesOf(sum);
    HalvesOf(Once(sum));
    hide Shr, And;
  }

  /** `a` and `b` differ by a multiple of 65535. */
  ghost predicate Congruent(a: int, b: int) {
    exists k: int :: a == b + k * M
  }

  lemma CongruentBy(a: int, b: int, k: int)
    requires a == b + k * M
    ensures Congruent(a, b)
  {}

  lemma CongruentTrans(a: int, b: int, c: int)
    requires Congruent(a, b) && Congruent(b, c)
    ensures Congruent(a, c)
  {
    var j :| a == b + j * M;
    var k :| b == c + k * M;
    CongruentBy(a, c, j + k);
  }

  lemma CongruentSym(a: int, b: int)
    requires Congruent(a, b)
    ensures Congruent(b, a)
  {
    var k :| a == b + k * M;
    CongruentBy(b, a, -k);
  }

  /** Two representatives of a class that are zero together are equal. */
  lemma SameRepresentative(a: nat, b: nat)
    requires a <= M && b <= M && Congruent(a, b) && (a == 0 <==> b == 0)
    ensures a == b
  {
    var k :| a == b + k * M;
    assert -1 <= k <= 1;
  }

  /** The 16 bits that `csum` complements. */
  function Representative(sum: nat): word {
    Folded(sum) % 0x1_0000
  }

  /** What RFC 1071 asks for: a representative of the sum modulo 65535 that is zero only for the sum zero. */
  ghost predicate Represents(r: nat, sum: nat) {
    Congruent(r, sum) && (r == 0 <==> sum == 0)
  }

  lemma OnceIsCongruent(sum: nat)
    ensures Congruent(Once(sum), sum) && (Once(sum) == 0 <==> sum == 0)
  {
    CongruentBy(sum, Once(sum), sum / 0x1_0000);
    CongruentSym(sum, Once(sum));
  }

  /** Two folds suffice exactly when the second one produces no carry out of the low word.  No buffer
      whose length fits an int has a sum of 2^47 or more. */
  lemma TwoFoldsSufficeIff(sum: nat)
    requires sum < 0x8000_0000_0000
    ensures Represents(Representative(sum), sum) <==> Once(sum) / 0x1_0000 + Once(sum) % 0x1_0000 < 0x1_0000
  {
    hide Once, Folded, Congruent;
    OnceIsCongruent(sum);
    var s := Once(sum);
    var a: int, b: int := s / 0x1_0000, s % 0x1_0000;
    var r := Representative(sum);
    LowWord(sum, a, b);
    if a + b < 0x1_0000 {
      CongruentBy(r, s, -a);
      CongruentTrans(r, s, sum);
    } else {
      NotCongruent(r, s, a);
      if Congruent(r, sum) {
        CongruentSym(s, sum);
        CongruentTrans(r, sum, s);
      }
    }
  }

  lemma LowWord(sum: nat, a: nat, b: nat)
    requires sum < 0x8000_0000_0000 && a == Once(sum) / 0x1_0000 && b == Once(sum) % 0x1_0000
    ensures a < 0x1_0000 && Representative(sum) == if a + b < 0x1_0000 then a + b else a + b - 0x1_0000
  {
    FoldedIs(sum);
    hide Folded;
    assert Folded(sum) == a * 0x1_0000 + (a + b);
    if a + b < 0x1_0000 {
      QuotientIs(Folded(sum), 0x1_0000, a, a + b);
    } else {
      QuotientIs(Folded(sum), 0x1_0000, a + 1, a + b - 0x1_0000);
    }
  }

  lemma NotCongruent(r: int, s: int, a: int)
    requires r == s - a * M - 0x1_0000
    ensures !Congruent(r, s)
  {
    forall k: int
      ensures r != s + k * M
    {
      assert (k + a + 1) * M != -1;
    }
  }

  /** The greatest number of words with which every buffer is folded correctly. */
  const MAX_WORDS: nat := 65538

  /** The sum of a buffer of that many words, which does not exceed 0x1_0000_fffe, is folded correctly. */
  lemma ShortSumsAreFolded(sum: nat)
    requires sum <= MAX_WORDS * M
    ensures Represents(Representative(sum), sum)
  {
    TwoFoldsSufficeIff(sum);
  }

  /** A buffer of 65539 words whose checksum is wrong: all ones, except for a last word of 1. */
  lemma LongBufferFails()
    ensures var ws := Ones(MAX_WORDS) + [1]; !Represents(M - Check(ws), Sum(ws))
  {
    var ws := Ones(MAX_WORDS) + [1];
    SumOfConcat(Ones(MAX_WORDS), [1]);
    SumOfOnes(MAX_WORDS);
    SumOfOne(1);
    OneTooMany(ws);
  }

  lemma OneTooMany(ws: seq<word>)
    requires Sum(ws) == MAX_WORDS * M + 1
    ensures !Represents(M - Check(ws), Sum(ws))
  {
    TwoFoldsSufficeIff(Sum(ws));
  }

  function Ones(n: nat): seq<word> {
    seq(n, _ => M)
  }

  lemma {:induction false} SumOfOnes(n: nat)
    ensures Sum(Ones(n)) == n * M
  {
    if n > 0 {
      assert Ones(n)[1..] == Ones(n - 1);
      SumOfOnes(n - 1);
    }
  }

  lemma {:induction false} SumOfConcat(a: seq<word>, b: seq<word>)
    ensures Sum(a + b) == Sum(a) + Sum(b)
  {
    if a == [] {
      assert a + b == b;
    } else {
      assert (a + b)[1..] == a[1..] + b;
      SumOfConcat(a[1..], b);
    }
  }

  lemma SumOfOne(w: word)
    ensures Sum([w]) == w
  {
    assert [w][1..] == [];
  }

  /** For every buffer whose length fits an int: the checksum is the complement of a representative of the sum
      exactly when the second fold produces no carry out of the low word. */
  lemma BufferIsFoldedIff(b: seq<byte>)
    requires |b| < 0x8000_0000
    ensures var sum := Sum(Words(b));
            Represents(M - Check(Words(b)), sum) <==> Once(sum) / 0x1_0000 + Once(sum) % 0x1_0000 < 0x1_0000
  {
    hide Words, Sum, Folded, Once, Represents;
    SumIsBounded(Words(b), 0x4000_0000);
    TwoFoldsSufficeIff(Sum(Words(b)));
  }

  /** The exact lengths, in bytes, of which every buffer is folded correctly. */
  lemma LengthIsFoldedIff(n: nat)
    ensures (forall b: seq<byte> :: |b| == n ==> Represents(M - Check(Words(b)), Sum(Words(b)))) <==> n <= 2 * MAX_WORDS
  {
    hide Words, Sum, Folded, Represents;
    if n <= 2 * MAX_WORDS {
      forall b: seq<byte> | |b| == n
        ensures Represents(M - Check(Words(b)), Sum(Words(b)))
      {
        SumIsBounded(Words(b), MAX_WORDS);
        ShortSumsAreFolded(Sum(Words(b)));
      }
    } else {
      var b := Filled(2 * MAX_WORDS, 0xff) + ([1] + Filled(n - 2 * MAX_WORDS - 1, 0));
      SumOfBytes(Filled(2 * MAX_WORDS, 0xff), [1] + Filled(n - 2 * MAX_WORDS - 1, 0));
      FilledWithOnes(MAX_WORDS);
      OneAndZeros(n - 2 * MAX_WORDS - 1);
      OneTooMany(Words(b));
    }
  }

  function Filled(n: nat, x: byte): (b: seq<byte>)
    ensures |b| == n
  {
    seq(n, _ => x)
  }

  lemma {:induction false} SumOfBytes(a: seq<byte>, b: seq<byte>)
    requires |a| % 2 == 0
    ensures Sum(Words(a + b)) == Sum(Words(a)) + Sum(Words(b))
  {
    if a == [] {
      assert a + b == b;
    } else {
      assert (a + b)[2..] == a[2..] + b;
      SumOfBytes(a[2..], b);
      WordsFrom(a, 0);
      WordsFrom(a + b, 0);
      assert a[0..] == a && (a + b)[0..] == a + b;
    }
  }

  lemma {:induction false} FilledWithOnes(k: nat)
    ensures Sum(Words(Filled(2 * k, 0xff))) == k * M
  {
    var b := Filled(2 * k, 0xff);
    WordsFrom(b, 0);
    assert b[0..] == b;
    if k > 0 {
      assert b[2..] == Filled(2 * (k - 1), 0xff);
      FilledWithOnes(k - 1);
    }
  }

  lemma {:induction false} OneAndZeros(n: nat)
    ensures Sum(Words([1] + Filled(n, 0))) == 1
  {
    var b := [1] + Filled(n, 0);
    WordsFrom(b, 0);
    assert b[0..] == b;
    if n > 0 {
      assert b[2..] == Filled(n - 1, 0);
      Zeroes(n - 1);
    }
  }

  lemma {:induction false} Zeroes(n: nat)
    ensures Sum(Words(Filled(n, 0))) == 0
  {
    var b := Filled(n, 0);
    WordsFrom(b, 0);
    assert b[0..] == b;
    if n > 1 {
      assert b[2..] == Filled(n - 2, 0);
      Zeroes(n - 2);
    }
  }

  lemma SumIsBounded(ws: seq<word>, n: nat)
    requires |ws| <= n
    ensures Sum(ws) <= n * M
  {}

  // ---------- The properties of RFC 1071 ----------

  /** Word order does not matter (section 2 (A)). */
  lemma {:induction false} SumOfPermutation(a: seq<word>, b: seq<word>)
    requires multiset(a) == multiset(b)
    ensures Sum(a) == Sum(b)
    decreases |a|
  {
    if a == [] {
      assert |multiset(b)| == 0;
    } else {
      hide Sum;
      assert a[0] in multiset(a);
      assert a[0] in multiset(b);
      var i :| 0 <= i < |b| && b[i] == a[0];
      RemoveOne(a, 0);
      RemoveOne(b, i);
      SumWithoutOne(a, 0);
      SumWithoutOne(b, i);
      SumOfPermutation(Without(a, 0), Without(b, i));
    }
  }

  lemma RemoveOne(b: seq<word>, i: nat)
    requires i < |b|
    ensures multiset(Without(b, i)) == multiset(b) - multiset{b[i]}
  {
    SplitAt(b, i);
  }

  lemma SumWithoutOne(b: seq<word>, i: nat)
    requires i < |b|
    ensures Sum(b) == b[i] + Sum(Without(b, i))
  {
    hide Sum;
    var front, one, back := b[..i], [b[i]], b[i + 1..];
    calc {
      Sum(b);
    ==  { SplitAt(b, i); }
      Sum(front + one + back);
    ==  { SumOfConcat(front + one, back); SumOfConcat(front, one); SumOfOne(b[i]); }
      Sum(front) + b[i] + Sum(back);
    ==  { SumOfConcat(front, back); }
      b[i] + Sum(Without(b, i));
    }
  }

  function SwapAll(ws: seq<word>): (r: seq<word>)
    ensures |r| == |ws|
  {
    if ws == [] then [] else [Swap16(ws[0])] + SwapAll(ws[1..])
  }

  lemma SwapIsTimes256(w: word)
    ensures 0x100 * w == Swap16(w) + w / 0x100 * M && (Swap16(w) == 0 <==> w == 0)
  {
    assert w == w % 0x100 + w / 0x100 * 0x100;
  }

  lemma {:induction false} SumOfSwapped(ws: seq<word>)
    ensures Congruent(Sum(SwapAll(ws)), 0x100 * Sum(ws)) && (Sum(SwapAll(ws)) == 0 <==> Sum(ws) == 0)
  {
    if ws == [] {
      CongruentBy(0, 0, 0);
    } else {
      SumOfSwapped(ws[1..]);
      var k :| Sum(SwapAll(ws[1..])) == 0x100 * Sum(ws[1..]) + k * M;
      SwapIsTimes256(ws[0]);
      assert SwapAll(ws)[1..] == SwapAll(ws[1..]);
      CongruentBy(Sum(SwapAll(ws)), 0x100 * Sum(ws), k - ws[0] / 0x100);
    }
  }

  /** Byte order does not matter (section 2 (B)): with the bytes of every word swapped, the checksum is the old one
      with its bytes swapped. */
  lemma SwappedChecksum(ws: seq<word>)
    requires |ws| <= MAX_WORDS
    ensures Check(SwapAll(ws)) == Swap16(Check(ws))
  {
    hide Sum, SwapAll, Folded, Congruent, Swap16;
    SumIsBounded(ws, MAX_WORDS);
    SumIsBounded(SwapAll(ws), MAX_WORDS);
    var s, t := Sum(ws), Sum(SwapAll(ws));
    ShortSumsAreFolded(s);
    ShortSumsAreFolded(t);
    SumOfSwapped(ws);
    SwappedRepresentative(s, t, Representative(s), Representative(t));
    SwapOfComplement(Representative(s));
  }

  lemma SwappedRepresentative(s: nat, t: nat, r: word, q: word)
    requires Represents(r, s) && Represents(q, t) && Congruent(t, 0x100 * s) && (t == 0 <==> s == 0)
    ensures q == Swap16(r)
  {
    hide Congruent, Swap16;
    SwapIsTimes256(r);
    CongruentBy(Swap16(r), 0x100 * r, -(r / 0x100));
    CongruentTimes(r, s, 0x100);
    CongruentTrans(Swap16(r), 0x100 * r, 0x100 * s);
    CongruentSym(t, 0x100 * s);
    CongruentTrans(Swap16(r), 0x100 * s, t);
    CongruentSym(q, t);
    CongruentTrans(Swap16(r), t, q);
    SameRepresentative(Swap16(r), q);
  }

  lemma CongruentTimes(a: int, b: int, n: int)
    requires Congruent(a, b)
    ensures Congruent(n * a, n * b)
  {
    var k :| a == b + k * M;
    assert n * a == n * b + (n * k) * M;
  }

  lemma SwapOfComplement(r: word)
    ensures Swap16(M - r) == M - Swap16(r)
  {
    var lo, hi := r % 0x100, r / 0x100;
    assert (M - r) % 0x100 == 0xff - lo && (M - r) / 0x100 == 0xff - hi;
  }

  /** Appending the checksum as a word gives checksum zero (section 1). */
  lemma VerifiesToZero(ws: seq<word>)
    requires |ws| < MAX_WORDS
    ensures Check(ws + [Check(ws)]) == 0
  {
    SumIsBounded(ws, MAX_WORDS - 1);
    SumIsBounded(ws + [Check(ws)], MAX_WORDS);
    var s := Sum(ws);
    var r := Representative(s);
    var t := Sum(ws + [Check(ws)]);
    ShortSumsAreFolded(s);
    SumOfConcat(ws, [Check(ws)]);
    assert Sum([Check(ws)]) == Check(ws) + Sum([]);
    assert t == s + M - r;
    ShortSumsAreFolded(t);
    var q := Representative(t);
    var k :| r == s + k * M;
    CongruentBy(t, M, -k);
    CongruentTrans(q, t, M);
    SameRepresentative(q, M);
  }

  // ---------- The code ----------

  lemma {:induction false} WordsFrom(b: seq<byte>, i: nat)
    requires i <= |b|
    ensures i + 1 < |b| ==> Sum(Words(b[i..])) == LittleEndian(b[i], b[i + 1]) + Sum(Words(b[i + 2..]))
    ensures i + 1 == |b| ==> Sum(Words(b[i..])) == b[i] as int
    ensures i == |b| ==> Sum(Words(b[i..])) == 0
  {
    if i + 1 < |b| {
      assert b[i..][2..] == b[i + 2..];
    } else if i + 1 == |b| {
      assert Sum([b[i] as int]) == b[i] as int + Sum([]);
    }
  }

  /** `csum`: the checksum of the first `nbytes` bytes at `ptr`; a length that is not positive counts as none. */
  method Csum(ptr: array<byte>, nbytes: int) returns (answer: word)
    requires nbytes <= ptr.Length
    ensures answer == Check(Words(ptr[..if nbytes > 0 then nbytes else 0]))
  {
    hide Words, Sum, Shr, And;
    var n := if nbytes > 0 then nbytes else 0;
    ghost var b := ptr[..n];
    var sum: nat, i: nat, left := 0, 0, nbytes;
    assert b[0..] == b;
    while left > 1
      invariant i <= n && (if nbytes > 0 then left == n - i else left == nbytes)
      invariant sum + Sum(Words(b[i..])) == Sum(Words(b))
      decreases left
    {
      WordsFrom(b, i);
      sum := sum + LittleEndian(ptr[i], ptr[i + 1]);
      i := i + 2;
      left := left - 2;
    }
    WordsFrom(b, i);
    if left == 1 {
      sum := sum + ptr[i] as int;
    }
    sum := Shr(sum, 16) + And(sum, M);
    sum := sum + Shr(sum, 16);
    answer := M - sum % 0x1_0000;
  }
}
