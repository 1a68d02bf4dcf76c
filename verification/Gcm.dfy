/**
 AES-128-GCM of `tls_crypto.c` over any block cipher: counter mode, tag, authenticated encryption
 and decryption (sections 6.2, 6.5, 7.1 and 7.2 of NIST SP 800-38D).
 */
module Gcm {
  import opened GaloisField
  import opened Ghash
  import opened BigEndian
  import opened ModArith

  /** The forward cipher under a key. */
  type Cipher = (seq<bv8>, Block) -> Block

  type Nonce = s: seq<bv8> | |s| == 12 witness seq(12, _ => 0)

  // ---- Counter blocks ----

  const WORD: nat := 0x1_0000_0000

  /** The block with a 32-bit counter value behind the nonce. */
  ghost function CounterBlock(nonce: Nonce, c: nat): Block {
    nonce + Store(c % WORD, 4)
  }

  lemma Word32Power()
    ensures Power256(4) == WORD
  {
    assert Power256(0) == 1 && Power256(1) == 256 && Power256(2) == 0x1_0000 && Power256(3) == 0x100_0000;
  }

  /** Counter blocks agree only for the same nonce and the same counter value modulo 2^32. */
  lemma CounterBlocksDiffer(nonce: Nonce, c: nat, nonce': Nonce, c': nat)
    ensures CounterBlock(nonce, c) == CounterBlock(nonce', c') <==> nonce == nonce' && c % WORD == c' % WORD
  {
    hide Store, Load;
    if CounterBlock(nonce, c) == CounterBlock(nonce', c') {
      assert nonce == CounterBlock(nonce, c)[..12] && nonce' == CounterBlock(nonce', c')[..12];
      assert Store(c % WORD, 4) == CounterBlock(nonce, c)[12..] && Store(c' % WORD, 4) == CounterBlock(nonce', c')[12..];
      Word32Power();
      LoadStore(c % WORD, 4);
      LoadStore(c' % WORD, 4);
    }
  }

  /** The block that encrypts byte p of a message: the counter starts at 1 and steps before each block. */
  ghost function KeystreamBlock(nonce: Nonce, p: nat): Block {
    CounterBlock(nonce, 2 + p / 16)
  }

  /**
   Within one message of a 32-bit length no counter block serves two 16-byte blocks, and none is the
   block that masks the tag, so the keystream is never reused.
   */
  lemma KeystreamNeverRepeats(nonce: Nonce, p: nat, q: nat)
    requires p < WORD && q < WORD
    ensures KeystreamBlock(nonce, p) == KeystreamBlock(nonce, q) <==> p / 16 == q / 16
    ensures KeystreamBlock(nonce, p) != CounterBlock(nonce, 1)
  {
    hide CounterBlock;
    CounterBlocksDiffer(nonce, 2 + p / 16, nonce, 2 + q / 16);
    CounterBlocksDiffer(nonce, 2 + p / 16, nonce, 1);
    SmallCounter(p);
    SmallCounter(q);
  }

  lemma SmallCounter(p: nat)
    requires p < WORD
    ensures (2 + p / 16) % WORD == 2 + p / 16
  {
  }

  /** The byte string one larger, modulo 256^|s|. */
  ghost function Increment(s: seq<bv8>): (t: seq<bv8>)
    ensures |t| == |s|
  {
    if |s| == 0 then [] else
      var n := |s| - 1;
      if s[n] == 0xff then Increment(s[..n]) + [0] else s[..n] + [s[n] + 1]
  }

  lemma {:induction false} IncrementAddsOne(s: seq<bv8>)
    ensures Load(Increment(s)) == (Load(s) + 1) % Power256(|s|)
  {
    hide Power256, Load;
    PowerUnfold(|s|);
    LoadUnfold(s);
    if |s| > 0 {
      var n := |s| - 1;
      var t := Increment(s);
      LoadBelow(t);
      LoadUnfold(t);
      Carry(s[n]);
      if s[n] == 0xff {
        IncrementAddsOne(s[..n]);
        assert t[..n] == Increment(s[..n]) && t[n] == 0;
        WrapScale(Load(s[..n]) + 1, Power256(n));
      } else {
        assert t[..n] == s[..n] && t[n] == s[n] + 1;
        SmallModulus(Load(t), Power256(|s|));
      }
    }
  }

  lemma Carry(b: bv8)
    ensures b != 0xff ==> (b + 1) as int == b as int + 1
    ensures b == 0xff ==> b as int == 255 && b + 1 == 0
  {
  }

  lemma WrapScale(x: nat, p: nat)
    requires p > 0
    ensures 256 * (x % p) == (256 * x) % (256 * p)
  {
    assert 256 * x == (x / p) * (256 * p) + 256 * (x % p) by {
      assert x == (x / p) * p + x % p;
    }
    ModUnique(256 * x, x / p, 256 * (x % p), 256 * p);
  }

  /** The incremented counter block is the next one, as the function inc32 of section 6.2 of NIST SP 800-38D. */
  lemma NextCounterBlock(nonce: Nonce, c: nat)
    ensures CounterBlock(nonce, c + 1) == nonce + Increment(CounterBlock(nonce, c)[12..])
  {
    hide Store, Load, Increment;
    var s := CounterBlock(nonce, c)[12..];
    assert s == Store(c % WORD, 4);
    Word32Power();
    LoadStore(c % WORD, 4);
    IncrementAddsOne(s);
    StoreLoad(Increment(s));
  }

  /** Incrementing carries through a run of 0xff bytes into the byte before it. */
  lemma {:induction false} IncrementRun(s: seq<bv8>, n: nat)
    requires n <= |s| && (forall j :: n <= j < |s| ==> s[j] == 0xff) && (n > 0 ==> s[n - 1] != 0xff)
    ensures forall j :: n <= j < |s| ==> Increment(s)[j] == 0
    ensures n > 0 ==> Increment(s)[..n] == s[..n - 1] + [s[n - 1] + 1]
    decreases |s|
  {
    if n < |s| {
      IncrementRun(s[..|s| - 1], n);
      assert n > 0 ==> s[..|s| - 1][..n - 1] == s[..n - 1];
    }
  }

  /** `gcm_counter`. */
  method GcmCounter(counter: array<bv8>)
    requires counter.Length == 16
    modifies counter
    ensures counter[..] == old(counter[..12]) + Increment(old(counter[12..]))
  {
    hide Increment;
    ghost var s := counter[..];
    var i := 15;
    while i >= 12
      invariant 11 <= i <= 15
      invariant forall j :: 0 <= j <= i ==> counter[j] == s[j]
      invariant forall j :: i < j < 16 ==> counter[j] == 0 && s[j] == 0xff
    {
      counter[i] := counter[i] + 1;
      Carry(s[i]);
      if counter[i] != 0 {
        break;
      }
      i := i - 1;
    }
    ghost var n := Increment(s[12..]);
    IncrementRun(s[12..], i - 11);
    forall j | 12 <= j < 16
      ensures counter[j] == n[j - 12]
    {
      if j <= i {
        assert n[j - 12] == n[..i - 11][j - 12];
      }
    }
    assert counter[..] == counter[..12] + counter[12..];
  }

  // ---- Counter mode ----

  /** Counter-mode encryption: byte p meets byte p mod 16 of its encrypted counter block. */
  ghost function Ctr(cipher: Cipher, key: seq<bv8>, nonce: Nonce, data: seq<bv8>): (out: seq<bv8>)
    ensures |out| == |data|
  {
    seq(|data|, p requires 0 <= p < |data| => XorByte(data[p], KeystreamByte(cipher, key, nonce, p)))
  }

  ghost function KeystreamByte(cipher: Cipher, key: seq<bv8>, nonce: Nonce, p: nat): bv8 {
    cipher(key, KeystreamBlock(nonce, p))[p % 16]
  }

  lemma XorTwice(a: bv8, b: bv8)
    ensures XorByte(XorByte(a, b), b) == a
  {
  }

  lemma CtrTwice(cipher: Cipher, key: seq<bv8>, nonce: Nonce, data: seq<bv8>)
    ensures Ctr(cipher, key, nonce, Ctr(cipher, key, nonce, data)) == data
  {
    hide XorByte, KeystreamByte;
    var once := Ctr(cipher, key, nonce, data);
    var twice := Ctr(cipher, key, nonce, once);
    forall p | 0 <= p < |data|
      ensures twice[p] == data[p]
    {
      XorTwice(data[p], KeystreamByte(cipher, key, nonce, p));
    }
  }

  method StoreBlock(output: array<bv8>, b: Block)
    requires output.Length == 16
    modifies output
    ensures output[..] == b
  {
    for i := 0 to 16
      invariant forall j :: 0 <= j < i ==> output[j] == b[j]
    {
      output[i] := b[i];
    }
  }

  /** The block of section 7.1 that masks the tag and precedes the keystream: the nonce and a counter of 1. */
  method InitialBlock(nonce: Nonce) returns (counter: array<bv8>)
    ensures fresh(counter) && counter.Length == 16 && counter[..] == CounterBlock(nonce, 1)
  {
    counter := new bv8[16](_ => 0);
    for i := 0 to 12
      invariant forall j :: 0 <= j < 16 ==> counter[j] == if j < i then nonce[j] else 0
    {
      counter[i] := nonce[i];
    }
    counter[15] := 1;
    FirstCounter();
    assert counter[..] == nonce + [0, 0, 0, 1];
  }

  lemma FirstCounter()
    ensures Store(1, 4) == [0, 0, 0, 1]
  {
    assert Store(0, 1) == [0] && Store(0, 2) == [0, 0] && Store(0, 3) == [0, 0, 0];
  }

  /** `gcm_crypt`. */
  method GcmCrypt(cipher: Cipher, key: seq<bv8>, nonce: Nonce, data: array<bv8>)
    requires data.Length < WORD
    modifies data
    ensures data[..] == Ctr(cipher, key, nonce, old(data[..]))
  {
    hide Store, XorByte, Increment;
    ghost var was := data[..];
    var counter := InitialBlock(nonce);
    var stream := new bv8[16];
    var at := 0;
    ghost var block := 0;
    while at < data.Length
      modifies data, counter, stream
      invariant at <= data.Length && (at == 16 * block || at == data.Length)
      invariant at < data.Length ==> counter[..] == CounterBlock(nonce, 1 + block)
      invariant forall p :: 0 <= p < at ==> data[p] == XorByte(was[p], KeystreamByte(cipher, key, nonce, p))
      invariant forall p :: at <= p < data.Length ==> data[p] == was[p]
    {
      var take := if data.Length - at < 16 then data.Length - at else 16;
      NextCounterBlock(nonce, 1 + block);
      assert counter[..] == CounterBlock(nonce, 1 + block) && counter[12..] == counter[..][12..] && counter[..12] == nonce;
      GcmCounter(counter);
      StoreBlock(stream, cipher(key, counter[..]));
      XorStream(cipher, key, nonce, data, at, take, block, stream);
      at := at + take;
      block := block + 1;
    }
  }

  method XorStream(cipher: Cipher, key: seq<bv8>, nonce: Nonce, data: array<bv8>, at: nat, take: nat, ghost block: nat, stream: array<bv8>)
    requires take <= 16 && at + take <= data.Length && at == 16 * block && stream.Length == 16 && stream != data
    requires stream[..] == cipher(key, CounterBlock(nonce, 2 + block))
    modifies data
    ensures data[..at] == old(data[..at]) && data[at + take..] == old(data[at + take..])
    ensures forall p :: at <= p < at + take ==> data[p] == XorByte(old(data[p]), KeystreamByte(cipher, key, nonce, p))
  {
    hide XorByte, CounterBlock;
    ghost var was := data[..];
    for i := 0 to take
      invariant forall p :: 0 <= p < at || at + i <= p < data.Length ==> data[p] == was[p]
      invariant forall p :: at <= p < at + i ==> data[p] == XorByte(was[p], KeystreamByte(cipher, key, nonce, p))
    {
      ModUnique(at + i, block, i, 16);
      data[at + i] := XorByte(data[at + i], stream[i]);
    }
  }

  // ---- Tag ----

  ghost function LengthBlock(additional: nat, length: nat): Block {
    Store(8 * additional, 8) + Store(8 * length, 8)
  }

  ghost function HashInput(additional: seq<bv8>, ciphertext: seq<bv8>): seq<Element> {
    PadBlocks(additional) + PadBlocks(ciphertext) + [Bits(LengthBlock(|additional|, |ciphertext|))]
  }

  lemma LengthsUnique(a: nat, c: nat, a': nat, c': nat)
    requires a < WORD && c < WORD && a' < WORD && c' < WORD
    requires LengthBlock(a, c) == LengthBlock(a', c')
    ensures a == a' && c == c'
  {
    hide Store, Load, Power256;
    assert LengthBlock(a, c)[..8] == Store(8 * a, 8) && LengthBlock(a', c')[..8] == Store(8 * a', 8);
    assert LengthBlock(a, c)[8..] == Store(8 * c, 8) && LengthBlock(a', c')[8..] == Store(8 * c', 8);
    WordsBelow();
    LoadStore(8 * a, 8);
    LoadStore(8 * a', 8);
    LoadStore(8 * c, 8);
    LoadStore(8 * c', 8);
  }

  /** What is hashed determines both the additional data and the ciphertext: no bytes can move between them. */
  lemma HashInputUnique(a: seq<bv8>, c: seq<bv8>, a': seq<bv8>, c': seq<bv8>)
    requires |a| < WORD && |c| < WORD && |a'| < WORD && |c'| < WORD
    requires HashInput(a, c) == HashInput(a', c')
    ensures a == a' && c == c'
  {
    hide Bits, PadBlocks, LengthBlock;
    var x, y := HashInput(a, c), HashInput(a', c');
    assert x[|x| - 1] == Bits(LengthBlock(|a|, |c|)) && y[|y| - 1] == Bits(LengthBlock(|a'|, |c'|));
    BitsInjective(LengthBlock(|a|, |c|), LengthBlock(|a'|, |c'|));
    LengthsUnique(|a|, |c|, |a'|, |c'|);
    PadBlocksCount(a, a');
    var n := |PadBlocks(a)|;
    assert x[..n] == PadBlocks(a) && y[..n] == PadBlocks(a');
    assert x[n..|x| - 1] == PadBlocks(c) && y[n..|y| - 1] == PadBlocks(c');
    PadBlocksUnique(a, a');
    PadBlocksUnique(c, c');
  }

  /**
   What is hashed, block by block: the additional data, the ciphertext, and last the two lengths in bits, each a
   big-endian number of eight bytes, that of the additional data first.
   */
  lemma HashedBlocks(additional: seq<bv8>, ciphertext: seq<bv8>, i: nat) returns (last: Block)
    requires |additional| < WORD && |ciphertext| < WORD
    ensures var x, m, n := HashInput(additional, ciphertext), (|additional| + 15) / 16, (|ciphertext| + 15) / 16;
      && |x| == m + n + 1
      && (i < m ==> x[i] == Bits(BlockAt(additional, i)))
      && (m <= i < m + n ==> x[i] == Bits(BlockAt(ciphertext, i - m)))
      && x[m + n] == Bits(last)
    ensures Load(last[..8]) == 8 * |additional| && Load(last[8..]) == 8 * |ciphertext|
  {
    hide Bits, PadBlocks, BlockAt, Store, Load, Power256;
    var m := (|additional| + 15) / 16;
    PadBlocksAt(additional, i);
    PadBlocksAt(ciphertext, if i >= m then i - m else 0);
    last := LengthBlock(|additional|, |ciphertext|);
    assert last[..8] == Store(8 * |additional|, 8) && last[8..] == Store(8 * |ciphertext|, 8);
    WordsBelow();
    LoadStore(8 * |additional|, 8);
    LoadStore(8 * |ciphertext|, 8);
  }

  /**
   The blocks that are encrypted: all zeros for the hash key, the nonce and a counter of 1 for the tag, and the nonce
   and a counter of 2 for the first sixteen bytes of the message.
   */
  lemma EncryptedBlocks(cipher: Cipher, key: seq<bv8>, nonce: Nonce, additional: seq<bv8>, ciphertext: seq<bv8>, p: nat)
    requires p < 16
    ensures var hashKey := Bits(cipher(key, [0, 0, 0, 0, 0, 0, 0, 0, 0, 0, 0, 0, 0, 0, 0, 0]));
      TagBits(cipher, key, nonce, additional, ciphertext)
      == Plus(Bits(cipher(key, nonce + [0, 0, 0, 1])), KeyPolynomial(HashInput(additional, ciphertext), hashKey))
    ensures KeystreamByte(cipher, key, nonce, p) == cipher(key, nonce + [0, 0, 0, 2])[p]
  {
    hide Bits, Plus, KeyPolynomial, HashInput, Store;
    FirstCounter();
    SecondCounter();
    assert seq(16, _ => 0 as bv8) == [0, 0, 0, 0, 0, 0, 0, 0, 0, 0, 0, 0, 0, 0, 0, 0];
  }

  /** Byte p of a message meets byte p mod 16 of the encrypted block of the nonce and the counter 2 + p / 16. */
  lemma KeystreamAt(cipher: Cipher, key: seq<bv8>, nonce: Nonce, data: seq<bv8>, p: nat) returns (b: Block)
    requires p < |data| < WORD
    ensures Ctr(cipher, key, nonce, data)[p] == data[p] ^ cipher(key, b)[p % 16]
    ensures b[..12] == nonce && Load(b[12..]) == 2 + p / 16
  {
    hide Store, Load;
    b := KeystreamBlock(nonce, p);
    assert b[12..] == Store((2 + p / 16) % WORD, 4);
    SmallCounter(p);
    Word32Power();
    LoadStore(2 + p / 16, 4);
  }

  lemma SecondCounter()
    ensures Store(2, 4) == [0, 0, 0, 2]
  {
    assert Store(0, 1) == [0] && Store(0, 2) == [0, 0] && Store(0, 3) == [0, 0, 0];
  }

  ghost function HashKey(cipher: Cipher, key: seq<bv8>): Element {
    Bits(cipher(key, seq(16, _ => 0)))
  }

  /** The tag of section 7.1 of NIST SP 800-38D, with GHASH as the polynomial of section 6.4. */
  ghost function TagBits(cipher: Cipher, key: seq<bv8>, nonce: Nonce, additional: seq<bv8>, ciphertext: seq<bv8>): Element {
    Plus(Bits(cipher(key, CounterBlock(nonce, 1))), KeyPolynomial(HashInput(additional, ciphertext), HashKey(cipher, key)))
  }

  /** `gcm_tag`. */
  method GcmTag(cipher: Cipher, key: seq<bv8>, nonce: Nonce, additional: seq<bv8>, ciphertext: seq<bv8>, tag: array<bv8>)
    requires |additional| < WORD && |ciphertext| < WORD && tag.Length == 16
    modifies tag
    ensures Bits(tag[..]) == TagBits(cipher, key, nonce, additional, ciphertext)
  {
    hide Bits, Plus, Times, PadBlocks, KeyPolynomial, CounterBlock, Store;
    var hash := new bv8[16](_ => 0);
    var state := new bv8[16](_ => 0);
    assert hash[..] == seq(16, _ => 0);
    ZeroBits(state[..]);
    StoreBlock(hash, cipher(key, hash[..]));
    ghost var h := HashKey(cipher, key);
    var initial := InitialBlock(nonce);
    GhashUpdate(state, hash, additional);
    GhashUpdate(state, hash, ciphertext);
    var lengths := LengthsOf(|additional|, |ciphertext|);
    ghost var last := Bits(lengths[..]);
    XorBlock(state, lengths);
    GhashMultiply(state, hash);
    HornerSteps(PadBlocks(additional), PadBlocks(ciphertext), last, h);
    StoreBlock(tag, cipher(key, initial[..]));
    XorBlock(tag, state);
  }

  method LengthsOf(additional: nat, length: nat) returns (lengths: array<bv8>)
    requires additional < WORD && length < WORD
    ensures fresh(lengths) && lengths.Length == 16 && lengths[..] == LengthBlock(additional, length)
  {
    hide Store;
    WordsBelow();
    lengths := new bv8[16](_ => 0);
    StoreWord64(lengths, 0, 8 * additional);
    assert lengths[..8] == lengths[0..8] == Store(8 * additional, 8);
    StoreWord64(lengths, 8, 8 * length);
    assert lengths[8..] == lengths[8..16];
    assert lengths[..] == lengths[..8] + lengths[8..];
  }

  lemma WordsBelow()
    ensures Power256(8) == WORD * WORD > 8 * WORD
  {
    assert Power256(0) == 1 && Power256(1) == 256 && Power256(2) == 0x1_0000 && Power256(3) == 0x100_0000;
    assert Power256(4) == WORD && Power256(5) == 256 * WORD && Power256(6) == 0x1_0000 * WORD && Power256(7) == 0x100_0000 * WORD;
  }

  /** Two runs of blocks and a last one, hashed one after the other, hash as one message. */
  lemma HornerSteps(xs: seq<Element>, ys: seq<Element>, last: Element, h: Element)
    ensures Times(Plus(Horner(Horner(Zero(), xs, h), ys, h), last), h) == KeyPolynomial(xs + ys + [last], h)
  {
    hide Plus, Times, KeyPolynomial;
    var e := Horner(Zero(), xs + ys, h);
    HornerConcat(Zero(), xs, ys, h);
    HornerConcat(Zero(), xs + ys, [last], h);
    HornerIsPolynomial(xs + ys + [last], h);
    assert Horner(e, [last], h) == Horner(Times(Plus(e, last), h), [last][1..], h);
  }

  /** `constant_equal`. */
  method ConstantEqual(left: array<bv8>, right: seq<bv8>, length: nat) returns (equal: bool)
    requires length <= left.Length && length <= |right|
    ensures equal <==> left[..length] == right[..length]
  {
    var difference: bv8 := 0;
    for i := 0 to length
      invariant difference == 0 <==> left[..i] == right[..i]
    {
      DifferenceBits(difference, left[i], right[i]);
      assert left[..i + 1] == left[..i] + [left[i]] && right[..i + 1] == right[..i] + [right[i]];
      difference := Accumulate(difference, left[i], right[i]);
    }
    equal := difference == 0;
  }

  function Accumulate(d: bv8, a: bv8, b: bv8): bv8 {
    d | (a ^ b)
  }

  lemma DifferenceBits(d: bv8, a: bv8, b: bv8)
    ensures Accumulate(d, a, b) == 0 <==> d == 0 && a == b
  {
  }

  // ---- Authenticated encryption ----

  /** What encryption makes of a plaintext: ciphertext and tag. */
  ghost predicate Sealed(cipher: Cipher, key: seq<bv8>, nonce: Nonce, additional: seq<bv8>, plain: seq<bv8>,
                         sealed: seq<bv8>, tag: Block) {
    sealed == Ctr(cipher, key, nonce, plain) && Bits(tag) == TagBits(cipher, key, nonce, additional, sealed)
  }

  /** What decryption answers and leaves in the buffer: the tag is checked before a byte is changed. */
  ghost predicate Opened(cipher: Cipher, key: seq<bv8>, nonce: Nonce, additional: seq<bv8>, sealed: seq<bv8>, tag: Block,
                         answer: int, data: seq<bv8>) {
    if Bits(tag) == TagBits(cipher, key, nonce, additional, sealed)
    then answer == 1 && data == Ctr(cipher, key, nonce, sealed)
    else answer == 0 && data == sealed
  }

  /** `aes128_gcm_encrypt`. */
  method Encrypt(cipher: Cipher, key: seq<bv8>, nonce: Nonce, additional: seq<bv8>, data: array<bv8>, tag: array<bv8>)
    returns (answer: int)
    requires |additional| < WORD && data.Length < WORD && tag.Length == 16 && tag != data
    modifies data, tag
    ensures answer == 1 && Sealed(cipher, key, nonce, additional, old(data[..]), data[..], tag[..])
  {
    hide Ctr, Bits, TagBits;
    GcmCrypt(cipher, key, nonce, data);
    ghost var sealed := data[..];
    GcmTag(cipher, key, nonce, additional, data[..], tag);
    assert data[..] == sealed;
    answer := 1;
  }

  /** `aes128_gcm_decrypt`. */
  method Decrypt(cipher: Cipher, key: seq<bv8>, nonce: Nonce, additional: seq<bv8>, data: array<bv8>, tag: Block)
    returns (answer: int)
    requires |additional| < WORD && data.Length < WORD
    modifies data
    ensures Opened(cipher, key, nonce, additional, old(data[..]), tag, answer, data[..])
  {
    hide Ctr, Bits, TagBits;
    var expected := new bv8[16];
    ghost var was := data[..];
    GcmTag(cipher, key, nonce, additional, data[..], expected);
    assert data[..] == was;
    var equal := ConstantEqual(expected, tag, 16);
    assert expected[..16] == expected[..] && tag[..16] == tag;
    if !equal {
      if Bits(tag) == Bits(expected[..]) {
        BitsInjective(tag, expected[..]);
      }
      return 0;
    }
    GcmCrypt(cipher, key, nonce, data);
    answer := 1;
  }

  /**
   Decryption with the key, nonce and additional data of an encryption: the genuine tag, and no
   other, gives 1 and the plaintext; every other tag gives 0 and leaves the ciphertext as it was.
   */
  lemma OpenSealed(cipher: Cipher, key: seq<bv8>, nonce: Nonce, additional: seq<bv8>, plain: seq<bv8>, sealed: seq<bv8>, tag: Block,
                   offered: Block, answer: int, data: seq<bv8>)
    requires Sealed(cipher, key, nonce, additional, plain, sealed, tag)
    requires Opened(cipher, key, nonce, additional, sealed, offered, answer, data)
    ensures offered == tag ==> answer == 1 && data == plain
    ensures offered != tag ==> answer == 0 && data == sealed
  {
    hide Ctr, Bits, TagBits;
    CtrTwice(cipher, key, nonce, plain);
    if Bits(offered) == Bits(tag) {
      BitsInjective(offered, tag);
    }
  }
}
