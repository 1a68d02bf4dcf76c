/**
 The streaming part of SHA-256 in `tls_crypto.c`, over any compression function: however a message is cut
 into updates, the digest is that of the message padded as in section 5.1.1 of FIPS 180-4.
 */
module Sha256 {
  import opened BigEndian
  import opened ModArith

  type Word = w: nat | w < 0x1_0000_0000
  type State = s: seq<Word> | |s| == 8 witness seq(8, _ => 0)
  type Chunk = s: seq<bv8> | |s| == 64 witness seq(64, _ => 0)
  type Compression = (State, Chunk) -> State

  const INITIAL: State :=
    [0x6A09E667, 0xBB67AE85, 0x3C6EF372, 0xA54FF53A, 0x510E527F, 0x9B05688C, 0x1F83D9AB, 0x5BE0CD19]
  const TWO64: nat := 0x1_0000_0000_0000_0000

  // ---- Specification ----

  /** The state after every whole block of a byte string. */
  ghost function Fold(f: Compression, h: State, data: seq<bv8>): State
    decreases |data|
  {
    if |data| < 64 then h else Fold(f, f(h, data[..64]), data[64..])
  }

  lemma {:induction false} FoldConcat(f: Compression, h: State, a: seq<bv8>, b: seq<bv8>)
    requires |a| % 64 == 0
    ensures Fold(f, h, a + b) == Fold(f, Fold(f, h, a), b)
    decreases |a|
  {
    if |a| == 0 {
      assert a + b == b;
    } else {
      assert (a + b)[..64] == a[..64] && (a + b)[64..] == a[64..] + b;
      FoldConcat(f, f(h, a[..64]), a[64..], b);
    }
  }

  ghost function Zeros(n: nat): (s: seq<bv8>)
    ensures |s| == n
  {
    seq(n, _ => 0)
  }

  /** How many zero bytes section 5.1.1 puts in: the fewest that fill the last block up with the length. */
  function ZeroCount(length: nat): (k: nat)
    ensures k < 64 && (length + 1 + k + 8) % 64 == 0
  {
    (119 - length % 64) % 64
  }

  ghost function Padded(m: seq<bv8>): seq<bv8> {
    m + [0x80] + Zeros(ZeroCount(|m|)) + Store(8 * |m| % TWO64, 8)
  }

  ghost function Digest(s: State, n: nat): seq<bv8>
    requires n <= 8
  {
    if n == 0 then [] else Digest(s, n - 1) + Store(s[n - 1], 4)
  }

  /** The hash of a message. */
  ghost function Hash(f: Compression, m: seq<bv8>): seq<bv8> {
    Digest(Fold(f, INITIAL, Padded(m)), 8)
  }

  /** No smaller number of zero bytes would do. */
  lemma ZeroCountLeast(length: nat, k: nat)
    requires (length + 1 + k + 8) % 64 == 0
    ensures ZeroCount(length) <= k
  {
  }

  /**
   The padded message byte by byte: the message, a byte with only its top bit set, zeros, and the number of bits of the
   message modulo 2^64 in the last eight bytes, most significant first; no shorter string of whole blocks holds them.
   */
  lemma PaddedLayout(m: seq<bv8>)
    ensures var p := Padded(m);
      && |p| % 64 == 0 && |m| + 9 <= |p| < |m| + 9 + 64
      && p[..|m|] == m && p[|m|] == 0x80 && (forall i :: |m| < i < |p| - 8 ==> p[i] == 0)
      && Load(p[|p| - 8..]) == 8 * |m| % TWO64
  {
    hide Store, Load, Power256;
    var p := Padded(m);
    assert p[|p| - 8..] == Store(8 * |m| % TWO64, 8);
    LoadStore(8 * |m| % TWO64, 8);
    TopPower();
  }

  lemma TopPower()
    ensures Power256(8) == TWO64
  {
    assert Power256(0) == 1 && Power256(1) == 256 && Power256(2) == 0x1_0000 && Power256(3) == 0x100_0000;
    assert Power256(4) == 0x1_0000_0000 && Power256(5) == 0x100_0000_0000 && Power256(6) == 0x1_0000_0000_0000;
  }

  /** The first eight primes, and their square roots rounded down. */
  const PRIMES: seq<nat> := [2, 3, 5, 7, 11, 13, 17, 19]
  const ROOTS: seq<nat> := [1, 1, 2, 2, 3, 3, 4, 4]

  /** The initial words are the first 32 bits of the fractional parts of these roots (section 5.3.3 of FIPS 180-4). */
  lemma InitialWords(i: nat)
    requires i < 8
    ensures ROOTS[i] * ROOTS[i] <= PRIMES[i] < (ROOTS[i] + 1) * (ROOTS[i] + 1)
    ensures var r := ROOTS[i] * 0x1_0000_0000 + INITIAL[i];
      r * r <= PRIMES[i] * TWO64 < (r + 1) * (r + 1)
  {
    if i == 0 {} else if i == 1 {} else if i == 2 {} else if i == 3 {}
    else if i == 4 {} else if i == 5 {} else if i == 6 {} else {}
  }

  /** The digest holds the eight words of the state in order, each with its most significant byte first. */
  lemma {:induction false} DigestWords(s: State, n: nat, i: nat)
    requires i < n <= 8
    ensures |Digest(s, n)| == 4 * n && Load(Digest(s, n)[4 * i..4 * i + 4]) == s[i]
    decreases n
  {
    hide Store, Load, Power256;
    DigestLength(s, n - 1);
    if i == n - 1 {
      assert Digest(s, n)[4 * i..4 * i + 4] == Store(s[i], 4);
      LoadStore(s[i], 4);
      WordPower();
    } else {
      DigestWords(s, n - 1, i);
      assert Digest(s, n)[4 * i..4 * i + 4] == Digest(s, n - 1)[4 * i..4 * i + 4];
    }
  }

  lemma {:induction false} DigestLength(s: State, n: nat)
    requires n <= 8
    ensures |Digest(s, n)| == 4 * n
  {
    if n > 0 {
      DigestLength(s, n - 1);
    }
  }

  lemma WordPower()
    ensures Power256(4) == 0x1_0000_0000
  {
    assert Power256(0) == 1 && Power256(1) == 256 && Power256(2) == 0x1_0000 && Power256(3) == 0x100_0000;
  }

  // ---- Context ----

  class Context {
    const f: Compression
    var state: State
    var total: nat
    const block: array<bv8>
    var used: nat
    ghost var message: seq<bv8>

    /** The state stands for the whole blocks so far, and the buffer for the bytes after them. */
    ghost predicate Held()
      reads `state, `used, `message, block
    {
      && block.Length == 64 && used <= 64 && used <= |message| && (|message| - used) % 64 == 0
      && block[..used] == message[|message| - used..]
      && state == Fold(f, INITIAL, message[..|message| - used])
    }

    ghost predicate Valid()
      reads this, block
    {
      Held() && used < 64 && total == |message| % TWO64
    }

    /** `sha256_init`. */
    constructor (f: Compression)
      ensures Valid() && message == [] && this.f == f && fresh(block)
    {
      this.f := f;
      state := INITIAL;
      total := 0;
      block := new bv8[64](_ => 0);
      used := 0;
      message := [];
    }

    /** `sha256_update`. */
    method Update(data: seq<bv8>)
      requires Valid() && |data| < 0x1_0000_0000
      modifies this, block
      ensures Valid() && message == old(message) + data
    {
      hide Held;
      SumMod(|message|, |data|);
      ghost var start, sum := message, |message + data| % TWO64;
      total := (total + |data|) % TWO64;
      var at := 0;
      while at < |data|
        invariant at <= |data| && message == start + data[..at] && total == sum
        invariant Held() && used < 64
      {
        var available := 64 - used;
        var take := if |data| - at < available then |data| - at else available;
        Take(data[at..at + take]);
        assert data[..at] + data[at..at + take] == data[..at + take];
        at := at + take;
      }
    }

    /** Puts bytes that fit into the block, and compresses the block when it is full. */
    method Take(bytes: seq<bv8>)
      requires Held() && used < 64 && used + |bytes| <= 64
      modifies this`state, this`used, this`message, block
      ensures Held() && used < 64 && message == old(message) + bytes
    {
      hide Fold;
      ghost var s := block[..used];
      for i := 0 to |bytes|
        modifies block
        invariant block[..used] == s && block[used..used + i] == bytes[..i]
      {
        block[used + i] := bytes[i];
      }
      Extend(bytes, |bytes|);
      if used == 64 {
        Compress();
      }
    }

    /** Counts bytes that were written behind the buffered ones. */
    method Extend(ghost bytes: seq<bv8>, n: nat)
      requires Held() && n == |bytes| && used + n <= 64 && block[used..used + n] == bytes
      modifies this`used, this`message
      ensures Held() && message == old(message) + bytes && used == old(used) + n
    {
      hide Fold;
      assert block[..used + n] == block[..used] + block[used..used + n];
      assert (message + bytes)[..|message| - used] == message[..|message| - used];
      used := used + n;
      message := message + bytes;
    }

    /** Compresses the full block. */
    method Compress()
      requires Held() && used == 64
      modifies this`state, this`used
      ensures Held() && used == 0
    {
      ghost var whole := message[..|message| - 64];
      assert block[..] == block[..64];
      assert message == whole + block[..];
      FoldConcat(f, INITIAL, whole, block[..]);
      assert Fold(f, state, block[..]) == f(state, block[..]);
      state := f(state, block[..]);
      used := 0;
      assert message[..|message|] == message;
    }

    /** Writes zero bytes up to a place. */
    method ZeroFill(end: nat)
      requires Held() && used <= end <= 64
      modifies this`used, this`message, block
      ensures Held() && used == end && message == old(message) + Zeros(end - old(used))
    {
      hide Fold;
      ghost var m, u := message, used;
      while used < end
        invariant u <= used <= end && Held() && message == m + Zeros(used - u)
      {
        block[used] := 0;
        Extend([0], 1);
      }
    }

    /** The part of `sha256_final` before the length: the bit after the message and the zero bytes. */
    method PadMessage()
      requires Held() && used < 64
      modifies this`state, this`used, this`message, block
      ensures Held() && used == 56 && message == old(message) + [0x80] + Zeros(ZeroCount(|old(message)|))
    {
      hide Fold;
      ghost var m, u := message, used;
      block[used] := 0x80;
      Extend([0x80], 1);
      if used > 56 {
        ZeroFill(64);
        Compress();
      }
      ZeroFill(56);
      PaddingCount(m, message, u);
    }

    /** `sha256_final` without the clearing of the context. */
    method Final() returns (digest: array<bv8>)
      requires Valid()
      modifies this, block
      ensures digest.Length == 32 && digest[..] == Hash(f, old(message))
    {
      hide Fold, Store, Digest;
      ghost var m := message;
      var bitLength := total * 8 % TWO64;
      LengthMod(|message|);
      PadMessage();
      ghost var whole := message[..|message| - 56];
      ghost var filled := block[..56];
      assert message == whole + filled;
      assert state == Fold(f, INITIAL, whole);
      WordBelow(bitLength);
      StoreWord64(block, 56, bitLength);
      assert block[..] == filled + Store(bitLength, 8);
      FoldLast(f, whole, block[..]);
      assert whole + block[..] == Padded(m);
      state := f(state, block[..]);
      digest := Output();
    }

    method Output() returns (digest: array<bv8>)
      ensures fresh(digest) && digest.Length == 32 && digest[..] == Digest(state, 8)
    {
      digest := new bv8[32](_ => 0);
      for i := 0 to 8
        invariant digest[..4 * i] == Digest(state, i)
      {
        StoreWord32(digest, 4 * i, state[i]);
        assert digest[..4 * (i + 1)] == digest[..4 * i] + digest[4 * i..4 * i + 4];
      }
      assert digest[..] == digest[..32];
    }
  }

  /** However a message is cut into updates, the digest is the hash of the whole. */
  method HashPieces(f: Compression, pieces: seq<seq<bv8>>) returns (digest: array<bv8>)
    requires forall i :: 0 <= i < |pieces| ==> |pieces[i]| < 0x1_0000_0000
    ensures digest.Length == 32 && digest[..] == Hash(f, Flatten(pieces))
  {
    hide Hash, Context.Valid;
    var context := new Context(f);
    for i := 0 to |pieces|
      invariant context.Valid() && context.f == f && context.message == Flatten(pieces[..i]) && fresh(context) && fresh(context.block)
    {
      context.Update(pieces[i]);
      assert pieces[..i + 1][..i] == pieces[..i];
    }
    assert pieces[..|pieces|] == pieces;
    digest := context.Final();
  }

  ghost function Flatten(pieces: seq<seq<bv8>>): seq<bv8> {
    if |pieces| == 0 then [] else Flatten(pieces[..|pieces| - 1]) + pieces[|pieces| - 1]
  }

  lemma SumMod(a: nat, b: nat)
    ensures (a % TWO64 + b) % TWO64 == (a + b) % TWO64
  {
  }

  lemma LengthMod(n: nat)
    ensures n % TWO64 * 8 % TWO64 == 8 * n % TWO64
  {
    var q, r := n / TWO64, n % TWO64;
    assert 8 * n == 8 * r + 8 * q * TWO64;
    AddMultiple(8 * r, 8 * q, TWO64);
  }

  lemma WordBelow(v: nat)
    requires v < TWO64
    ensures v < Power256(8)
  {
    TopPower();
  }

  lemma FoldLast(f: Compression, whole: seq<bv8>, last: Chunk)
    requires |whole| % 64 == 0
    ensures Fold(f, INITIAL, whole + last) == f(Fold(f, INITIAL, whole), last)
  {
    FoldConcat(f, INITIAL, whole, last);
    var h := Fold(f, INITIAL, whole);
    assert last[..64] == last && Fold(f, h, last) == Fold(f, f(h, last), last[64..]);
  }

  /** The zero bytes up to place 56 of a block are those of the padding. */
  lemma PaddingCount(m: seq<bv8>, padded: seq<bv8>, used: nat)
    requires used < 64 && used <= |m| && (|m| - used) % 64 == 0
    requires padded == if used < 56 then m + [0x80] + Zeros(55 - used) else m + [0x80] + Zeros(63 - used) + Zeros(56)
    ensures padded == m + [0x80] + Zeros(ZeroCount(|m|))
  {
    assert ZeroCount(|m|) == if used < 56 then 55 - used else 119 - used;
  }
}
