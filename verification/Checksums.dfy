/** The Internet checksum of `net.c` (RFC 1071): ones' complement sums of big-endian 16-bit words. */
module Checksums {
  import opened Bytes
  import opened ModArith

  newtype uint32 = x: int | 0 <= x < 0x1_0000_0000

  const ONES: nat := 0xFFFF

  /** Most significant byte first. */
  function Be16(v: nat): (s: seq<byte>)
    requires v < 0x1_0000
    ensures |s| == 2
  {
    [(v / 0x100) as byte, (v % 0x100) as byte]
  }

  function Be32(v: nat): (s: seq<byte>)
    requires v < 0x1_0000_0000
    ensures |s| == 4
  {
    Be16(v / 0x1_0000) + Be16(v % 0x1_0000)
  }

  /** The plain sum of the words of a byte string; an odd last byte counts as the high half of a word. */
  ghost function Words(s: seq<byte>): (n: nat)
    ensures n <= 0x8000 * (|s| + 1)
  {
    if |s| == 0 then 0
    else if |s| == 1 then 0x100 * s[0] as int
    else 0x100 * s[0] as int + s[1] as int + Words(s[2..])
  }

  /** The ones' complement sum: the residue modulo 0xFFFF, with 0xFFFF for every multiple but zero itself. */
  ghost function Folded(sum: nat): (f: nat)
    ensures f <= ONES && (f == 0 <==> sum == 0)
  {
    if sum == 0 then 0 else (sum - 1) % ONES + 1
  }

  /** Folding keeps a sum modulo 0xFFFF. */
  lemma FoldedCongruent(sum: nat)
    ensures Folded(sum) % ONES == sum % ONES
  {
    if sum > 0 {
      var q := (sum - 1) / ONES;
      assert sum == Folded(sum) + q * ONES;
      AddMultiple(Folded(sum), q, ONES);
    }
  }

  lemma FoldStep(sum: nat)
    ensures Folded(sum % 0x1_0000 + sum / 0x1_0000) == Folded(sum)
  {
    var q, r := sum / 0x1_0000, sum % 0x1_0000;
    if q > 0 {
      assert sum - 1 == (r + q - 1) + q * ONES;
      AddMultiple(r + q - 1, q, ONES);
    }
  }

  lemma FoldSmall(sum: nat)
    requires sum <= ONES
    ensures Folded(sum) == sum
  {
  }

  /** The folding loop: as long as the sum exceeds sixteen bits, its upper part is added to its lower sixteen. */
  method Fold(start: uint32) returns (sum: uint32)
    ensures sum as int == Folded(start as int)
  {
    sum := start;
    while sum / 0x1_0000 > 0
      invariant Folded(sum as int) == Folded(start as int)
      decreases sum
    {
      FoldStep(sum as int);
      sum := sum % 0x1_0000 + sum / 0x1_0000;
    }
    FoldSmall(sum as int);
  }

  /** What goes into the packet: the complement of the ones' complement sum. */
  ghost function Complement(sum: nat): (c: nat)
    ensures c <= ONES
  {
    ONES - Folded(sum)
  }

  /** A sum completed with its complement checks out, also with 0xFFFF written for a complement of zero. */
  lemma ComplementCompletes(sum: nat)
    ensures Complement(sum + Complement(sum)) == 0
    ensures Complement(sum) == 0 ==> Complement(sum + ONES) == 0
  {
    var c := Complement(sum);
    if sum > 0 {
      var q := (sum - 1) / ONES;
      assert sum - 1 == q * ONES + (Folded(sum) - 1);
      assert sum + c - 1 == ONES - 1 + q * ONES;
      AddMultiple(ONES - 1, q, ONES);
      assert sum + ONES - 1 == sum - 1 + 1 * ONES;
      AddMultiple(sum - 1, 1, ONES);
    }
  }

  /** `checksum`. */
  method Checksum(data: array<byte>, at: nat, length: nat) returns (c: nat)
    requires at + length <= data.Length && length < 0x1_0000
    ensures c == Complement(Words(data[at..at + length]))
  {
    var sum := AddWords(0, data, at, length);
    sum := Fold(sum);
    c := ONES - sum as int;
  }

  /** The loop that adds up the words of a buffer. */
  method AddWords(start: uint32, data: array<byte>, at: nat, length: nat) returns (sum: uint32)
    requires at + length <= data.Length && length < 0x1_0000 && start < 0x10_0000
    ensures sum as int == start as int + Words(data[at..at + length])
  {
    sum := start;
    var p, remaining := at, length;
    ghost var total := start as int + Words(data[at..at + length]);
    while remaining > 1
      invariant p + remaining == at + length && sum as int + Words(data[p..p + remaining]) == total
    {
      assert data[p..p + remaining][2..] == data[p + 2..p + remaining];
      sum := sum + data[p] as uint32 * 0x100 + data[p + 1] as uint32;
      p, remaining := p + 2, remaining - 2;
    }
    if remaining > 0 {
      sum := sum + data[p] as uint32 * 0x100;
    }
  }

  /** Replacing the word at an even place changes the sum by the difference. */
  lemma {:induction false} WordsReplace(s: seq<byte>, at: nat, w: seq<byte>)
    requires at % 2 == 0 && at + 2 <= |s| && |w| == 2
    ensures Words(s[..at] + w + s[at + 2..]) == Words(s) - Words(s[at..at + 2]) + Words(w)
    decreases |s|
  {
    var t := s[..at] + w + s[at + 2..];
    if at == 0 {
      assert t[2..] == s[2..] && Words(s[..2][2..]) == 0 && Words(w[2..]) == 0;
    } else {
      assert t[2..] == s[2..][..at - 2] + w + s[2..][at..];
      assert s[2..][at - 2..at] == s[at..at + 2];
      WordsReplace(s[2..], at - 2, w);
    }
  }

  /** The sum of strings joined at an even place is the sum of the sums. */
  lemma {:induction false} WordsConcat(s: seq<byte>, t: seq<byte>)
    requires |s| % 2 == 0
    ensures Words(s + t) == Words(s) + Words(t)
    decreases |s|
  {
    if |s| == 0 {
      assert s + t == t;
    } else {
      assert (s + t)[2..] == s[2..] + t;
      WordsConcat(s[2..], t);
    }
  }

  lemma WordsOfBe16(v: nat)
    requires v < 0x1_0000
    ensures Words(Be16(v)) == v
  {
    assert Words(Be16(v)[2..]) == 0;
  }

  /** The sum of a string that grows by a word, or by the odd last byte, which counts as the high half of a word. */
  lemma WordsGrow(s: seq<byte>, high: byte, low: byte)
    requires |s| % 2 == 0
    ensures Words(s + [high, low]) == Words(s) + 0x100 * high as int + low as int
    ensures Words(s + [high]) == Words(s) + 0x100 * high as int
  {
    WordsConcat(s, [high, low]);
    WordsConcat(s, [high]);
    assert Words([high, low][2..]) == 0;
  }
}
