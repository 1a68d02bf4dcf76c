# TarixenOS in Dafny

A model of the algorithms inside TarixenOS that carry real invariants, with proofs. The operating system itself is
mostly drivers and user interface; what is modelled here is

- the **X25519 key exchange** on 16 signed limbs of radix 2^16, down to the overflow of every 64-bit operation, against
  the ladder of RFC 7748 and the group operations it stands for (`ModArith`, `Field`, `Bytes`, `Limbs`, `Packing`,
  `Rfc7748`, `Montgomery`, `Curve25519`);
- **AES-128-GCM** over any block cipher, against NIST SP 800-38D (`GaloisField`, `Ghash`, `BigEndian`, `Gcm`), and the
  streaming part of **SHA-256** over any compression function, against FIPS 180-4 (`Sha256`);
- the **FAT32 file system**: an array of sectors, the chains in its table, the directory tree over the chains, and the
  operations that patch them through stale sector buffers (`FatVolume`, `FatFrames`, `FatSlots`, `FatUpdates`,
  `FatWrites`, `FatDisk`, `FatLayout`, `FileSystem`);
- the **run queue**: 140 lists of doubly linked processes under a bitmap (`BitWords`, `RunQueue`), and the **frame
  allocator** with the page directories cloned from it (`Paging`);
- the **receive ring** of the e1000 network card, driver against device under every interleaving (`ReceiveRing`);
- **Internet checksums**, packet headers and the **TCP receiver** against a network that loses, repeats and reorders
  (`Checksums`, `Packets`, `TcpReceiver`), and the **reassembly of TLS handshake messages** from records
  (`HandshakeReader`);
- the two **line loops** (`LineSteps`, `Lines`) and the printer and parser of the **desktop layout** (`DesktopLayout`).

Loops that work in place are methods over arrays or classes. Each is proved against a specification function or
predicate, and lemmas then relate these to an independent definition: the RFC's ladder, polynomial arithmetic over
GF(2), the standard's padding, chains and files as mathematical sequences, the frames that arrived, the peer's stream.
Formats are stated byte by byte besides, so that a definition shared by a method and its specification is held to the
standard or the source's own layout from outside.

Some readings of the source that the model makes explicit:

- `>>` on a signed limb is floor division. Limbs are a newtype with the range of `int64`, so each operation on them is
  proved not to overflow; error terms of the line loops are 32 bits wide in the same way.
- Free, end-of-chain and data entries of the file system's table are those of the code: a cluster is free when the low
  28 bits of its entry are zero, a chain ends at a value from 0x0FFFFFF8 on, and data uses the first 512 bytes of each
  cluster, on both read and write. A cluster is backed when the table has its entry and the disk its sectors
  (`FatDisk.BackedIff`); any number of them may be, on any disk that the ATA commands reach.
- The allocator also tries numbers that are not backed, and a new head is stored with 16 bits. Both are harmless exactly
  as long as a backed cluster is free and, for a head, some free one is below 65536 (`FileSystem.Driver.AllocCluster`,
  `NewEntry`). The operations ask for that, or that a full disk is noticed. `FatDisk.FreeBehind` and
  `FatWrites.TruncatedHead` show what breaks otherwise: on the system's own image (`FatDisk.SystemImage`) an entry made
  when the first free cluster is 65538 refers to cluster 2, the root directory. A head whose low 16 bits are zero is
  taken and then given up, because the code takes it for none.
- The user memory of a cloned address space lies four megabytes above its physical addresses, because its table is put
  into the second slot of the directory (`Paging.CloneTranslates`).
- A name that starts with the byte 0xE5 is stored as it is and never found again; the contracts say so.
- Where a promise does not hold for all inputs, the condition under which it does is part of the contract, mostly next to
  a lemma with an input that breaks it: a payload cut to the caller's buffer (`TcpReceiver.Connection.Receive`,
  `CutPayloadSkips`), a FIN that overtakes data (`EarlyFin`), a full-size TLS record behind a partial message
  (`HandshakeReader.CallsReadAllIff`, `FullRecordBehindHeader`), a priority changed before the process is taken out of
  its list (`RunQueue.RunQueue.DequeueChanged`).
- Both line loops can overflow an `int`. The differences of the ends must be less than 2^31, so that they and their
  negations exist; beyond that, `LineSteps.ScreenRunsIff` and `CanvasRunsIff` give the exact conditions. They involve the
  greatest common divisor of the differences, because the error term takes exactly its multiples. The canvas never
  overflows on flat lines.
- The empty desktop layout is not read back: its text is empty, and reading an empty text leaves the saved icons alone.

`dafny verify dfyconfig.toml` checks the whole project.

## Model

| member | source | states |
|---|---|---|
| `Limbs.Car` | kernel/tls_crypto.c:347-355 | One pass of carries over 16 signed limbs without leaving int64: the result has base-65536 digits, and the number changes by exactly k times 2p, with the overflow k folded into limb 0 as 38k. |
| `Limbs.CarryLimb` | kernel/tls_crypto.c:350-353 | One turn of the carry loop keeps the number; at limb 15 it subtracts a multiple of 2p. |
| `Limbs.FirstPass` | kernel/tls_crypto.c:347-355 | The overflow of a first pass is bounded by the size of the limbs, so that of a product is small enough for a second. |
| `Limbs.SecondPass` | kernel/tls_crypto.c:391 | A second pass brings limb 0 into [-38, 65573] and the others into [0, 65535]. |
| `Limbs.ThirdPass` | kernel/tls_crypto.c:365 | A third pass leaves proper digits only. |
| `Limbs.Product` | kernel/tls_crypto.c:386-388 | The 31 limbs of the schoolbook product denote the product of the two numbers, for operand bounds that include the factor 121665, with every accumulation inside int64. |
| `Limbs.Fold` | kernel/tls_crypto.c:389-390 | Folding the high limbs in with factor 38 keeps the residue modulo 2^255 - 19. |
| `Limbs.MulLimbs` | kernel/tls_crypto.c:384-392 | The result lies within the output bounds and stands for the product modulo 2^255 - 19, also when the output is one of the operands. |
| `Curve25519.AddLimbs` | kernel/tls_crypto.c:382 | Limbwise sum: residue of the sum, limb bounds added up. |
| `Curve25519.SubLimbs` | kernel/tls_crypto.c:383 | Limbwise difference: residue of the difference, limb bounds added up. |
| `Curve25519.SquareLimbs` | kernel/tls_crypto.c:393 | Residue of the square within the output bounds. |
| `Curve25519.ScaleLimbs` | kernel/tls_crypto.c:414 | The uncarried multiplication by 121665: residue of that multiple, with limbs 121665 times as large. |
| `Curve25519.ExponentIsPrimeMinusTwo` | kernel/tls_crypto.c:397 | The chain of squarings that leaves out the multiplications at bits 2 and 4 raises to exactly 2^255 - 21. |
| `Curve25519.Inverse` | kernel/tls_crypto.c:394-400 | The output stands for the input to the power 2^255 - 21, also in place. |
| `Packing.MaskedExchange` | kernel/tls_crypto.c:356-360 | On 64-bit words, exclusive-or of both words with the masked difference exchanges them when selected and keeps them otherwise. |
| `Packing.Select` | kernel/tls_crypto.c:356-360 | By the mask, limb by limb in two's complement, exchanges the two limb vectors exactly when selected. |
| `Packing.LimbOfWord` | kernel/tls_crypto.c:356-360 | A 64-bit limb is what its word in two's complement stands for, through all eight bytes. |
| `Packing.TrialSubtract` | kernel/tls_crypto.c:367-371 | The borrowing loop leaves the difference from 2^255 - 19 in base 65536 and its sign in the borrow of limb 15. |
| `Packing.SubtractPrime` | kernel/tls_crypto.c:366-373 | One pass subtracts the prime exactly when the number has reached it. |
| `Packing.Canonical` | kernel/tls_crypto.c:366-373 | Two such passes reach the residue, because every number of 256 bits is below three times the prime. |
| `Packing.Pack` | kernel/tls_crypto.c:361-376 | The 32 bytes written are the little-endian form of the residue in [0, 2^255 - 19), for every input within the bounds. |
| `Packing.Unpack` | kernel/tls_crypto.c:377-381 | The limbs denote the number in the bytes with its top bit ignored, as section 5 of RFC 7748 decodes a u-coordinate. |
| `Packing.BytesUnique` | kernel/tls_crypto.c:361-376 | Little-endian byte strings of one length that denote the same number are equal. |
| `Packing.PackingIsCanonical` | kernel/tls_crypto.c:361-381 | Limb vectors for the same field element pack to the same bytes, and those bytes decode to that element. |
| `Curve25519.FirstHalf` | kernel/tls_crypto.c:411-412 | The sums, differences, squares and cross products of one ladder step, for inputs within the bounds of curve_mul. |
| `Curve25519.SecondHalf` | kernel/tls_crypto.c:413-415 | The rest of the step, including the product whose factor is 121665 times an uncarried difference plus a square; all results are back within the bounds. |
| `Curve25519.RoundAgrees` | kernel/tls_crypto.c:411-415 | What the step computes, with its operand order and its differences the other way round, is the step of section 5 of RFC 7748. |
| `Curve25519.LadderRound` | kernel/tls_crypto.c:409-416 | One iteration: swap when selected, the RFC step, swap back; all four field elements stay within the bounds. |
| `Curve25519.ClampMasks` | kernel/tls_crypto.c:404 | The masks 248, 127 and 64 clear and set the bits that the clamped scalar has cleared and set. |
| `Curve25519.DecodedBits` | kernel/tls_crypto.c:404 | For every private key, the bits of the scalar used: bit 254 is set, bits 3 to 253 are those of the key, all others are clear. |
| `Curve25519.DecodedRange` | kernel/tls_crypto.c:404 | Every scalar used is a multiple of 8 from 2^254 up to below 2^255. |
| `Curve25519.CoordinateBits` | kernel/tls_crypto.c:380 | The bits of a decoded coordinate are those of the bytes below bit 255, which is ignored. |
| `Curve25519.PrimeIs` | kernel/tls_crypto.c:366-373 | The modulus is 2^255 - 19. |
| `Curve25519.ByteHoldsBit` | kernel/tls_crypto.c:409 | Bit 8i + r of the scalar as a number is bit r of its byte i. |
| `Curve25519.Ladder25519` | kernel/tls_crypto.c:406-417 | After the rounds for bits 254 to 0 the limbs stand for the state of the ladder that swaps before and after each round. |
| `Rfc7748.EagerIsLagged` | kernel/tls_crypto.c:408-417 | For every scalar, point and bit, the ladder that swaps before and after each round is the lagged-swap loop of section 5 of RFC 7748 with its pending swap carried out. |
| `Montgomery.RoundDoubles` | kernel/tls_crypto.c:411-415 | The first two coordinates of a step are those of twice the point, on the curve y^2 = x^3 + 486662 x^2 + x. |
| `Montgomery.RoundAdds` | kernel/tls_crypto.c:411-415 | The last two are those of the sum of two points whose difference has the given coordinate. |
| `Montgomery.EagerIsBinary` | kernel/tls_crypto.c:408-417 | For a scalar whose highest bit is bit 254, the 255 rounds are one for each binary digit of the scalar, from the highest on. |
| `Curve25519.ValueByDigits` | kernel/tls_crypto.c:401-422 | For every private key and coordinate, the result is the quotient of the coordinates that the rounds along the digits of its scalar end with. |
| `Curve25519.ScalarMult` | kernel/tls_crypto.c:401-422 | For every scalar and point, the bytes written are those of the function X25519 of RFC 7748 on the decoded arguments. |
| `Curve25519.PublicKey` | kernel/tls_crypto.c:423-426 | The public key is X25519 of the decoded private key and 9. |
| `Curve25519.SharedSecret` | kernel/tls_crypto.c:427-430 | The shared secret is that of RFC 7748, and the answer tells whether it is nonzero. |
| `GaloisField.TimesIsPolynomialProduct` | kernel/tls_crypto.c:300-311 | The block product of section 6.3 of NIST SP 800-38D is the product of the polynomials over GF(2), by convolution, reduced by long division with x^128 + x^7 + x^2 + x + 1. |
| `GaloisField.PowersOfX` | kernel/tls_crypto.c:306-308 | Multiplication by x takes each power of x to the next, and x^127 to x^7 + x^2 + x + 1. |
| `GaloisField.TimesDistributes` | kernel/tls_crypto.c:300-311 | The product distributes over exclusive or on both sides. |
| `GaloisField.TimesCommutes` | kernel/tls_crypto.c:300-311 | The product commutes. |
| `GaloisField.TimesAssociates` | kernel/tls_crypto.c:300-311 | The product associates. |
| `Ghash.XorBlock` | kernel/tls_crypto.c:299 | Bytewise exclusive or is the sum of the field elements. |
| `Ghash.ShiftFactor` | kernel/tls_crypto.c:306-308 | The byte shift with the conditional 0xe1 is multiplication by x in the field. |
| `Ghash.GhashMultiply` | kernel/tls_crypto.c:300-311 | Replaces the value by its product with the hash key in GF(2^128). |
| `Ghash.GhashUpdate` | kernel/tls_crypto.c:313-318 | For data of any length, the state becomes the Horner evaluation of the zero-padded blocks at the hash key, from the state before. |
| `Ghash.PadBlocksAt` | kernel/tls_crypto.c:313-318 | There is a block for every sixteen bytes begun, holding the bytes of its place and zeros behind the last. |
| `Ghash.HornerConcat` | kernel/tls_crypto.c:327 | Hashing one string of blocks after another is hashing their concatenation. |
| `Ghash.HornerIsPolynomial` | kernel/tls_crypto.c:313-318 | From zero, the Horner evaluation is the sum of each block times the power of the key for its place, the GHASH of section 6.4 of NIST SP 800-38D. |
| `Gcm.IncrementAddsOne` | kernel/tls_crypto.c:320 | The carried increment of a byte string adds one to the number it denotes, modulo its size. |
| `Gcm.GcmCounter` | kernel/tls_crypto.c:320 | The last four bytes are incremented with carry; the first twelve are unchanged. |
| `Gcm.NextCounterBlock` | kernel/tls_crypto.c:320 | The incremented counter block is the one for the next 32-bit counter value, inc32 of section 6.2 of NIST SP 800-38D. |
| `Gcm.CounterBlocksDiffer` | kernel/tls_crypto.c:335-336 | Counter blocks are equal exactly for equal nonces and counter values equal modulo 2^32. |
| `Gcm.KeystreamNeverRepeats` | kernel/tls_crypto.c:326-336 | Within a message of a 32-bit length, counter blocks of different 16-byte blocks differ, and none is the block that masks the tag. |
| `Gcm.GcmCrypt` | kernel/tls_crypto.c:333-338 | Every byte p of the buffer meets byte p mod 16 of the encrypted counter block 2 + p / 16. |
| `Gcm.CtrTwice` | kernel/tls_crypto.c:333-338 | Counter mode twice is the identity. |
| `Gcm.GcmTag` | kernel/tls_crypto.c:322-331 | The tag is the encrypted initial block plus the GHASH polynomial of additional data, ciphertext and their bit lengths (section 7.1 of NIST SP 800-38D). |
| `Gcm.HashedBlocks` | kernel/tls_crypto.c:327-328 | Block by block, the additional data is hashed, then the ciphertext, then one block with the number of bits of the first and of the second, each in eight bytes, most significant first. |
| `Gcm.EncryptedBlocks` | kernel/tls_crypto.c:325-329 | The hash key is the encrypted zero block; the tag is masked by the block of nonce and counter 1, and the message starts with that of counter 2. |
| `Gcm.KeystreamAt` | kernel/tls_crypto.c:333-338 | Byte p of a message meets byte p mod 16 of the encrypted block of the nonce and the counter 2 + p / 16. |
| `Gcm.HashInputUnique` | kernel/tls_crypto.c:327-328 | The blocks hashed determine both the additional data and the ciphertext. |
| `Gcm.ConstantEqual` | kernel/tls_crypto.c:321 | The accumulated difference is zero exactly when the two strings are equal. |
| `Gcm.Encrypt` | kernel/tls_crypto.c:340-341 | Leaves the counter-mode ciphertext in the buffer and writes the tag of that ciphertext. |
| `Gcm.Decrypt` | kernel/tls_crypto.c:342-343 | Answers 1 and decrypts exactly when the tag is right; otherwise answers 0 and leaves the buffer untouched. |
| `Gcm.OpenSealed` | kernel/tls_crypto.c:340-343 | Decrypting what was encrypted with the same key, nonce and additional data gives 1 and the plaintext for the genuine tag; every other tag gives 0 and leaves the ciphertext. |
| `BigEndian.StoreWord64` | kernel/tls_crypto.c:33-36 | Eight bytes, most significant first, that denote the value; the rest of the buffer is unchanged. |
| `BigEndian.StoreWord32` | kernel/tls_crypto.c:25-31 | Four bytes of the value, most significant first; the rest of the buffer is unchanged. |
| `BigEndian.LoadFirst` | kernel/tls_crypto.c:25-36 | The first byte of a stored number is its most significant. |
| `Sha256.InitialWords` | kernel/tls_crypto.c:76-79 | The eight initial words are the first 32 bits of the fractional parts of the square roots of the first eight primes (section 5.3.3 of FIPS 180-4). |
| `Sha256.PaddedLayout` | kernel/tls_crypto.c:102-112 | The padded message byte by byte: message, 0x80, zeros, and its number of bits in the last eight bytes, most significant first, in the fewest blocks that hold them. |
| `Sha256.DigestWords` | kernel/tls_crypto.c:113-114 | The digest holds the eight words of the state in order, each most significant byte first. |
| `Sha256.Context.constructor` | kernel/tls_crypto.c:74-83 | A context for the empty message. |
| `Sha256.Context.Update` | kernel/tls_crypto.c:85-100 | The context for the message so far becomes the one for that message with the new data appended: state the fold of the whole blocks, fewer than 64 bytes buffered, length modulo 2^64. |
| `Sha256.Context.PadMessage` | kernel/tls_crypto.c:105-111 | One bit and exactly the zero bytes of section 5.1.1 of FIPS 180-4 are appended, over one block or two. |
| `Sha256.ZeroCountLeast` | kernel/tls_crypto.c:105-111 | No smaller number of zero bytes fills the last block up with the eight bytes of the length. |
| `Sha256.Context.Final` | kernel/tls_crypto.c:102-115 | The digest is that of the block fold over the message padded as in section 5.1.1 of FIPS 180-4. |
| `Sha256.HashPieces` | kernel/tls_crypto.c:85-116 | For every way of cutting a message into updates, the digest is that of the whole message. |
| `FileSystem.MakeName` | system_plikow/system_plikow.c:109-113 | The eleven bytes are the padded base name of at most eight characters and extension of at most three; an extension counts only when its dot follows at most eight characters. |
| `FileSystem.StoredParts` | system_plikow/system_plikow.c:109-113 | A base of up to eight bytes without a dot, a dot and an extension are stored as the base padded with blanks to eight and the extension cut or padded to three. |
| `FileSystem.StoredPlain` | system_plikow/system_plikow.c:109-113 | A name without a dot in its first nine bytes is stored as its first eight, padded with blanks. |
| `FileSystem.StoredApart` | system_plikow/system_plikow.c:109-113 | Names of a base and an extension without blanks are stored alike exactly when both are the same. |
| `FileSystem.SpecialNames` | system_plikow/system_plikow.c:241-246 | The root and the parent are named by a slash and by two dots in front. |
| `FatLayout.EntryFields` | system_plikow/system_plikow.h:17-22 | The fields of a directory entry byte by byte: name, attributes, halves of the cluster number and size, the lowest byte first; bit 4 of the attributes marks a directory. |
| `FatLayout.FindIff` | system_plikow/system_plikow.c:115-127 | A name leads to a slot exactly when that is the first whose eleven bytes are the name, that is not deleted, no dot entry and no part of a long name, with no slot before it that starts with zero. |
| `FatLayout.ClustersInOrder` | system_plikow/system_plikow.c:78 | Clusters follow the tables one after the other, cluster 2 first. |
| `FatLayout.EntryBytes` | system_plikow/system_plikow.c:80-85 | The entry of a cluster is the four bytes at four times its number in the table, the lowest first, without their top four bits. |
| `FatLayout.LinkValues` | system_plikow/system_plikow.c:94-107 | A cluster is free when its entry is 0, a chain ends at 0x0FFFFFF8 or above, and a taken cluster is filled with zeros. |
| `FatLayout.FileByte` | system_plikow/system_plikow.c:189-191 | Byte j of a file is byte j mod 512 of the first sector of the cluster that j / 512 links lead to from the one in its entry. |
| `FatDisk.BackedIff` | system_plikow/system_plikow.c:78-107 | A cluster number is backed exactly when the allocator tries it, the table has its entry and the disk all its sectors. |
| `FatDisk.SystemImage` | makefile:174-180 | On the image the system boots from, more than 65536 clusters are backed: as many as its table has entries, and the allocator tries 125954 numbers. |
| `FatDisk.AdvertisedSize` | system_plikow/system_plikow.c:96 | On a disk of exactly the advertised number of sectors the allocator tries numbers that are not backed. |
| `FatDisk.FreeBehind` | system_plikow/system_plikow.c:94-107 | A free entry behind those of the backed clusters keeps a full disk from being noticed: the allocator goes on to a number that is not backed. |
| `FatDisk.ClosedExhausted` | system_plikow/system_plikow.c:80-97 | When every number behind the backed ones leads into some copy of the table, to the entry of a backed cluster or to one that is not free, the allocator finds nothing on a full disk. |
| `FatDisk.WriteCluster` | system_plikow/system_plikow.c:99-102 | Writing a sector of a backed cluster changes the first sector of that cluster at most, no other cluster and no table entry, backed or not. |
| `FatDisk.WriteFat` | system_plikow/system_plikow.c:87-92 | Writing the entry of a backed cluster to every copy of the table changes that entry of the volume and nothing else, and keeps the copies equal. |
| `FatFrames.FreeIsUnlinked` | system_plikow/system_plikow.c:97 | A cluster whose entry is free is on no chain. |
| `FatFrames.AllocateLinked` | system_plikow/system_plikow.c:98-103 | Taking a free cluster adds a chain of its own and keeps all chains acyclic, disjoint and ended. |
| `FatFrames.LinkLinked` | system_plikow/system_plikow.c:209-212 | Linking a chain of one cluster behind the last cluster of another joins the two and keeps all chains acyclic, disjoint and ended. |
| `FatFrames.ExtendApart` | system_plikow/system_plikow.c:208-212 | Lengthening one chain by a fresh cluster leaves every other chain and its data alone. |
| `FatVolume.ChainLength` | system_plikow/system_plikow.c:124 | No chain has more clusters than the volume, so following one ends. |
| `FatUpdates.MissingIsNotAFile` | system_plikow/system_plikow.c:186-187 | A name has no contents exactly when it leads nowhere or to a directory. |
| `FatUpdates.StoreKeepsFiles` | system_plikow/system_plikow.c:204-216 | Storing into the chain of one file, allocations included, changes no other file and no directory. |
| `FatUpdates.StoreThenPatch` | system_plikow/system_plikow.c:204-221 | Storing the data and then writing back the directory sector that was read before the allocations makes the file hold the data and changes no other file or slot. |
| `FatUpdates.ResizePaths` | system_plikow/system_plikow.c:217-221 | After the slot of a file is patched, every name leads to the same directory as before, or to none as before. |
| `FatUpdates.CreateEffect` | system_plikow/system_plikow.c:166-180 | Writing a fresh entry back keeps the volume consistent and every other file and path, and makes the new file, or the new empty directory that its name leads to. |
| `FatUpdates.CreatedDead` | system_plikow/system_plikow.c:122 | A file whose stored name starts with the byte 0xE5 cannot be found. |
| `FatWrites.LengthenedEnd` | system_plikow/system_plikow.c:204-216 | A write that has lengthened its chain only as far as the data needs stores all of it exactly when the chain and the free clusters together suffice, and else has used both up. |
| `FatWrites.ShortFile` | system_plikow/system_plikow.c:209-222 | A write that runs out of clusters leaves the file reading as the data that fitted, cut to the size in its slot, which stays the old one. |
| `FatWrites.TruncatedHead` | system_plikow/system_plikow.c:171-179 | When the first free cluster is the root directory's number plus a multiple of 65536, the entry made in the root directory refers to the root directory, and no choice of chains makes the volume consistent. |
| `FatUpdates.FormattedIsConsistent` | makefile:174-180 | A freshly formatted volume, of any number of clusters below the end-of-chain values, is consistent, with all clusters but the root directory's free. |
| `FileSystem.Driver.Mount` | system_plikow/system_plikow.c:129-135 | From a consistent volume with equal copies of the table, the driver starts in the root directory. |
| `FileSystem.Driver.FatEntry` | system_plikow/system_plikow.c:80-85 | The low 28 bits of the entry the number leads to, within the table or behind it; for a backed cluster that is its entry of the volume. |
| `FileSystem.Driver.SetFatEntry` | system_plikow/system_plikow.c:87-92 | For a backed cluster: the volume with that one entry changed, all copies of the table alike. |
| `FileSystem.Driver.AllocCluster` | system_plikow/system_plikow.c:94-107 | Returns a backed cluster exactly when one is free: the first, now a zeroed chain of its own. Otherwise returns 0, with nothing changed, exactly when every entry it reads behind those of the backed clusters is taken too. |
| `FileSystem.Driver.FindEntry` | system_plikow/system_plikow.c:115-127 | The first live slot with the name, with its sector in the buffer; none when no slot before the end of the directory has it. |
| `FileSystem.Driver.ReadFile` | system_plikow/system_plikow.c:182-192 | -1 for a missing name or a directory; otherwise the first bytes of the file, up to the capacity, and the rest of the buffer unchanged. |
| `FileSystem.Driver.StoreData` | system_plikow/system_plikow.c:204-216 | Follows and lengthens the chain until the data is stored 512 bytes a cluster, which succeeds exactly when the chain and the free clusters suffice; otherwise both are used up and filled. |
| `FileSystem.Driver.WriteFile` | system_plikow/system_plikow.c:194-223 | 0 exactly when the name leads to a file and as many clusters are free as the write takes; the file then holds exactly the data. When they are too few, the file reads as the data that fitted, cut to its old size. Every other file in every directory is as before, every path leads where it led, of the directory slots only that of the file changes, only on success, and exactly the clusters needed, or all free ones, are taken. |
| `FileSystem.Driver.NewEntry` | system_plikow/system_plikow.c:166-174 | The first free slot of the first sector filled in with name, attributes and the low 16 bits of the first free cluster; -1 exactly when the sector is full. The entry refers to the cluster taken exactly when some free cluster is below 65536. |
| `FileSystem.Driver.CreateFile` | system_plikow/system_plikow.c:176-180 | 0 exactly when the name was unused, the first directory sector has a slot and a cluster is free: the file then reads as zeros of the size asked for, at most 512, under an entry of attributes 0x20 and that size, or cannot be found when its name starts with 0xE5; -1 leaves the volume as it was. Every other file and path is as before. |
| `FileSystem.Driver.CreateDirectory` | system_plikow/system_plikow.c:225 | 0 under the same condition: the name leads to a new empty directory on a chain of its own, unless it starts with 0xE5; -1 leaves the volume as it was. Every other file and path is as before. |
| `FileSystem.Driver.ChangeDirectory` | system_plikow/system_plikow.c:233-256 | To the root for a name that starts with a slash and for the parent of the root, to the parent, or into the subdirectory the name leads to, which is put on the stack; -1, for no directory or a stack of 16, leaves everything as it was. |
| `FileSystem.Run` | system_plikow/system_plikow.c:166-256 | Every run of create_file, create_dir, write_file and cd keeps all chains acyclic, disjoint, free of free clusters and ended, the copies of the table equal and the directory tree consistent; a name that no request mentions keeps its contents and leads where it led, in every directory. The volume may have any number of clusters; what a run needs is as many free ones below 65536 as it takes, or that the free ones are all there and a full disk is noticed. |
| `BitWords.SetFlag` | kernel/proces.cpp:45-47 | Sets one bit of a bitmap of 32-bit words and changes no other. |
| `BitWords.ClearFlag` | kernel/proces.cpp:49-51 | Clears one bit of a bitmap of 32-bit words and changes no other. |
| `BitWords.LowestBit` | kernel/proces.cpp:56 | The lowest set bit of a nonzero word. |
| `RunQueue.Clamp` | kernel/proces.cpp:39-43 | A priority of the table; the priority itself when it is one. |
| `RunQueue.InsertKeepsOrder` | kernel/proces.cpp:67-86 | A newcomer at its spot keeps urgent processes in order of arrival and every other process behind nothing with a larger virtual run time, ties in order of arrival, also in lists that hold both kinds. |
| `RunQueue.RemoveKeepsOrder` | kernel/proces.cpp:91-96 | Taking a process out keeps that order. |
| `RunQueue.SpotUnique` | kernel/proces.cpp:67-86 | A list and a newcomer determine the spot. |
| `RunQueue.OrderUnique` | kernel/proces.cpp:67-86 | Among urgent processes only, or others only, the order is determined by which processes are queued and when each arrived. |
| `RunQueue.RunQueue.constructor` | kernel/proces.cpp:203-213 | Empty lists, an empty bitmap and no running process. |
| `RunQueue.RunQueue.FindHighest` | kernel/proces.cpp:53-60 | The lowest-numbered priority whose list has members, or -1 exactly when nothing is queued. |
| `RunQueue.RunQueue.FindSpot` | kernel/proces.cpp:74-79 | The walk stops before the first process with a larger virtual run time. |
| `RunQueue.RunQueue.Splice` | kernel/proces.cpp:80-85 | Links a process in between two neighbours: forward links, backward links, head and tail describe the list with it inserted. |
| `RunQueue.RunQueue.Enqueue` | kernel/proces.cpp:62-89 | The process is inserted in the list of its priority, at the end when it is real-time or critical and before the first larger virtual run time otherwise; no other list changes; links, ends, bitmap and count again describe the lists, and these keep their order. |
| `RunQueue.RunQueue.ListOrder` | kernel/proces.cpp:67-86 | Of real-time and critical processes, a list holds first those that came first; of the four other classes, first those with less virtual run time, ties by arrival. |
| `RunQueue.MayRunStates` | kernel/proces.cpp:120-158 | No process that is terminated, blocked, asleep or a zombie is picked, nor the current one. |
| `RunQueue.RunQueue.Dequeue` | kernel/proces.cpp:91-101 | The process is taken out of the list of its priority with both links cleared; no other list changes; links, ends, bitmap and count again describe the lists, and these keep their order. |
| `RunQueue.RunQueue.UnlinkElsewhere` | kernel/proces.cpp:91-101 | With a priority changed before the process is taken out: all links pass over the process, its old list stays whole exactly when it has a neighbour on both sides, and the ends of the other list change exactly when it has not. |
| `RunQueue.RunQueue.DequeueChanged` | kernel/proces.cpp:523-531 | Then the whole queue, bitmap and count included, is valid again exactly when the process has a neighbour on both sides; otherwise an end of its old list still names it, which no list of that priority can, whatever its members. |
| `RunQueue.RunQueue.SetPriority` | kernel/proces.cpp:523-535 | A process between two others moves from its old list to its spot in the list of the new priority; no other list changes and the queue stays valid. |
| `RunQueue.RunQueue.PickNext` | kernel/proces.cpp:120-158 | With one processor: the first process that is ready or running and not the current one, of the lowest-numbered priority with members, taken out of the queue; the idle task, with the queue as it was, exactly when that list has none. |
| `ReceiveRing.Ring.constructor` | drivers/e1000.c:122-131 | An empty ring: tail one behind head, no descriptor done. |
| `ReceiveRing.Ring.Fill` | drivers/e1000.c:122-131 | The device takes a frame exactly when fewer than 31 descriptors are filled and not given back, into a free descriptor, and drops it otherwise; unread frames stay. |
| `ReceiveRing.FillKeepsUnread` | drivers/e1000.c:187-203 | Between any two steps of the driver, an arriving frame overwrites no unread one. |
| `ReceiveRing.Ring.CopyOut` | drivers/e1000.c:194-196 | Whatever arrives meanwhile, the bytes copied are those of the oldest unread frame, cut to the capacity. |
| `ReceiveRing.Ring.GiveBack` | drivers/e1000.c:197-201 | Status, length, tail and head, in this order and with frames arriving before each step, keep the ring steady and leave the tail one behind the head. |
| `ReceiveRing.Ring.Receive` | drivers/e1000.c:187-203 | Under every interleaving with the device, the frames handed over are the arrived frames in order, each exactly once and cut to the capacity of its call; 0 without a frame means that none was unread. |
| `Checksums.Fold` | drivers/net.c:52 | The loop ends with the sum modulo 65535, written as 65535 for every multiple of it but zero. |
| `Checksums.FoldedCongruent` | drivers/net.c:52 | The folded sum is congruent to the sum modulo 65535. |
| `Checksums.ComplementCompletes` | drivers/net.c:119-133 | A sum completed with its complement checks out as zero, also with 0xFFFF in place of a complement of zero. |
| `Checksums.AddWords` | drivers/net.c:49-51 | The sum of the big-endian words, an odd last byte as a high half, without leaving 32 bits. |
| `Checksums.WordsGrow` | drivers/net.c:47-54 | A word counts with its first byte high, and so does an odd last byte. |
| `Checksums.Checksum` | drivers/net.c:47-54 | The complement of the ones' complement sum of the words. |
| `Packets.TransportChecksum` | drivers/net.c:56-67 | The complement of the sum over addresses, protocol, length and segment. |
| `Packets.WriteIpHeader` | drivers/net.c:74-79 | The 20 bytes of the IP header with its checksum in place; the bytes around are unchanged. |
| `Packets.EthernetPlaces` | drivers/net.c:69-72 | Destination, source and type, in this order. |
| `Packets.IpPlaces` | drivers/net.c:74-79 | Version and length, total length, identification, no fragments, 64 hops, protocol, source and destination at the places of RFC 791. |
| `Packets.UdpPlaces` | drivers/net.c:119-133 | Source port, destination port, length and payload at the places of RFC 768. |
| `Packets.TcpPlaces` | drivers/net.c:317-330 | Ports, sequence numbers, header length, flags, window and payload at the places of RFC 9293. |
| `Packets.PseudoHeader` | drivers/net.c:56-67 | A transport checksum covers both addresses, the protocol and the length besides the segment. |
| `Packets.IpHeaderChecks` | drivers/net.c:74-79 | The checksum over a filled-in IP header is zero, as in RFC 1071. |
| `Packets.MakeUdpPacket` | drivers/net.c:119-133 | Ethernet and IP headers and the UDP segment with its checksum, a complement of zero sent as 0xFFFF. |
| `Packets.UdpSegmentChecks` | drivers/net.c:119-133 | The checksum over a filled-in UDP segment is zero. |
| `Packets.MakeTcpPacket` | drivers/net.c:317-330 | Ethernet and IP headers and the TCP segment with its checksum. |
| `Packets.TcpSegmentChecks` | drivers/net.c:317-330 | The checksum over a filled-in TCP segment is zero. |
| `TcpReceiver.BuiltIsRead` | drivers/net.c:317-347 | A frame that make_tcp_packet builds, padded or not, meets the conditions of tcp_wait and is read back with its sequence number, acknowledgement, flags and payload. |
| `TcpReceiver.FrameIsRead` | drivers/net.c:332-347 | For any Ethernet frame with an IP packet and a TCP header with or without options: it is accepted exactly when type, protocol, source address and both ports are the peer's, and its fields and payload are read from the places of RFC 9293. |
| `TcpReceiver.AcceptedBytes` | drivers/net.c:332-347 | On the bytes of any frame: exactly which are accepted, length checks included. |
| `TcpReceiver.BuiltIsAccepted` | drivers/net.c:317-347 | A frame that make_tcp_packet builds is accepted exactly when its source address, source port and destination port are the peer's. |
| `TcpReceiver.ControlBits` | drivers/net.c:408-418 | RST and FIN are the control bits 4 and 1. |
| `TcpReceiver.SamePlace` | drivers/net.c:409 | Sequence numbers of a stream shorter than 2^32 bytes name one place each. |
| `TcpReceiver.NextSlice` | drivers/net.c:409 | A payload whose sequence number is the acknowledged one is the next slice of the stream. |
| `TcpReceiver.Connection.constructor` | drivers/net.c:351-377 | The acknowledgement starts one behind the sequence number of the answer to the SYN. |
| `TcpReceiver.Connection.TcpWait` | drivers/net.c:332-349 | The first frame within the polls that meets its conditions; 0 when none does. |
| `TcpReceiver.Connection.Receive` | drivers/net.c:394-427 | The first segment that resets, comes next or carries FIN decides, and all before it are passed over: a reset gives -2, the next payload is delivered up to the capacity and acknowledged whole, another FIN gives 0; -3 when there is none within the attempts. With any loss, repetition and reordering, the bytes delivered stay a prefix of the stream exactly as long as each payload fits, and always with 1484 bytes of room. A FIN closes the connection, with the whole stream delivered exactly when it stood at the acknowledged place. |
| `TcpReceiver.ReceiveFirst` | drivers/net.c:394-427 | When the next frame carries a segment that resets, ends or continues the stream, a call answers to that segment: -2, the payload or 0. |
| `TcpReceiver.CutPayloadSkips` | drivers/net.c:410-412 | Two calls on a payload longer than the buffer and its successor deliver the stream with the rest of the payload left out, so the delivered bytes stop being a prefix of the stream as soon as the first byte left out differs from the one delivered in its place. |
| `TcpReceiver.EarlyFin` | drivers/net.c:418-423 | A call on a FIN that stands ahead of the acknowledged place answers 0 and closes the connection short of the end of the stream. |
| `TcpReceiver.Connection.Assemble` | drivers/net.c:469-497 | For every capacity of at least 2, the response is a prefix of the stream, all that was acknowledged unless the buffer is full, ended by a zero byte inside the buffer. |
| `HandshakeReader.Connection.ReadExact` | kernel/tls_client.c:95-113 | The next bytes of the stream, exactly when it holds as many, however it is cut into chunks. |
| `HandshakeReader.Connection.ReadRecord` | kernel/tls_client.c:115-124 | The record at the front of the stream, exactly when one of version 3 is there whole and fits. |
| `HandshakeReader.Connection.Compact` | kernel/tls_client.c:288-293 | Moves the pending bytes to the front of the buffer, unchanged. |
| `HandshakeReader.Connection.ReadMessage` | kernel/tls_client.c:270-311 | The outcome of a call as a function of pending bytes and stream: the message, the bytes left pending and the stream left; 0 <= start <= end <= 16384 throughout. |
| `HandshakeReader.NextTakesFirst` | kernel/tls_client.c:270-311 | A call takes the first length-delimited message off the pending bytes joined with the handshake payloads to come, and nothing else. |
| `HandshakeReader.CallsReadMessages` | kernel/tls_client.c:270-311 | However handshake bytes are cut into records, with records of type 20 between, successive calls return the messages of the joined payloads in order, as in section 5.1 of RFC 8446. |
| `HandshakeReader.MessageParts` | kernel/tls_client.c:277-281 | A message of a type, a length in three bytes, most significant first, and a body of that length is taken whole, whatever follows. |
| `HandshakeReader.WholeIff` | kernel/tls_client.c:115-124 | On the bytes: when a whole message is there, and when a whole record of major version 3. |
| `HandshakeReader.OtherKindFails` | kernel/tls_client.c:299-300 | A record of any other type than 20 and 22 makes the call fail that needs it. |
| `HandshakeReader.SplitEncoded` | kernel/tls_client.c:270-311 | Any such messages joined together split into exactly these messages. |
| `HandshakeReader.WireRecords` | kernel/tls_client.c:115-124 | Records sent as type, version 3.x, length in two bytes and payload are read back as they were sent. |
| `HandshakeReader.SentIsRead` | kernel/tls_client.c:270-311 | For any messages so encoded, cut into handshake records in any way with change-cipher-spec records anywhere between, calls return these messages in order, none skipped or changed; all of them exactly when the records fit at every message boundary. |
| `HandshakeReader.NextSucceedsIff` | kernel/tls_client.c:288-309 | A call succeeds exactly when some number of records completes a message and each of them fits behind the bytes pending before it. |
| `HandshakeReader.CallsReadAllIff` | kernel/tls_client.c:270-311 | For every cutting into records, successive calls return all the messages exactly when each record up to the end of the last message fits behind the unfinished message before it. |
| `HandshakeReader.CallsReadAll` | kernel/tls_client.c:270-311 | That is the case when records and messages together are no longer than the buffer. |
| `HandshakeReader.FullRecordBehindHeader` | kernel/tls_client.c:294-298 | A concrete message header in a record of its own behind which a record of 16384 bytes, which completes the message, makes the call fail. |
| `Paging.Memory.AllocFrame` | kernel/paging.c:24-34 | The first free frame, now allocated; 0, with nothing changed, exactly when all 3584 frames are allocated. |
| `Paging.Memory.FreeFrame` | kernel/paging.c:36-42 | Frees exactly the given frame; addresses outside the pool or inside a frame change nothing. |
| `Paging.Memory.MapPage` | kernel/paging.c:44-47 | Sets the one entry for the virtual page to the physical page and flags. |
| `Paging.Memory.FillUserTable` | kernel/proces.cpp:565-571 | The user table maps the pages of user memory and nothing else. |
| `Paging.Memory.Clone` | kernel/proces.cpp:556-584 | Three fresh frames with the directory, user table and framebuffer table filled in; or 0 with the allocator as it was, exactly when fewer than three frames are free. |
| `Paging.CloneTranslates` | kernel/proces.cpp:556-584 | What the processor makes of a cloned directory, for every address: user memory is at 5 MB to 8 MB for users to write, the megabyte before is empty, the framebuffer is at its own address for the kernel, the kernel's other entries below 1 GB are there, and nothing else above. |
| `Paging.Memory.Release` | kernel/proces.cpp:350-357 | Frees exactly the three frames of the directory's space. |
| `Paging.ThreeEach` | kernel/proces.cpp:556-584 | Spaces that are pairwise disjoint hold three frames each. |
| `Paging.Memory.FramesConserved` | kernel/proces.cpp:339-357 | After any run of clones and terminations the allocated frames are three for each live space: nothing leaks, nothing is freed twice. |
| `LineSteps.ScreenAdvance` | drivers/qemu_vga.cpp:409-411 | A step moves along the longer axis always and keeps the deviation within half a pixel, half a pixel itself on one side only. |
| `LineSteps.SameRun` | drivers/qemu_vga.cpp:403-411 | For all differences, the loop of the screen and that of the canvas visit the same pixels in the same order. |
| `LineSteps.DeviationRange` | drivers/qemu_vga.cpp:403-411 | The deviation is a multiple of the greatest common divisor of the differences, between the largest ones within half of the longer difference. |
| `LineSteps.Extremes` | drivers/qemu_vga.cpp:403-411 | Both bounds are reached during every run. |
| `LineSteps.ScreenRunsIff` | drivers/qemu_vga.cpp:403-411 | The rounds of the loop stay within 32 bits exactly under a condition on the differences and their greatest common divisor. |
| `LineSteps.ScreenShort` | drivers/qemu_vga.cpp:403-411 | The condition holds whenever the longer difference is below a third of 2^31. |
| `LineSteps.LongestHorizontal` | drivers/qemu_vga.cpp:409 | A horizontal line of 2^30 - 1 steps stays in range; one of 2^30 steps doubles its error term to 2^31 in the first round. |
| `Lines.ScreenLine` | drivers/qemu_vga.cpp:393-413 | For all ends that keep the operations within 32 bits: exactly max(dx, dy) + 1 pixels from end to end, one per step of the longer axis, each within half a pixel of the ideal line; those on the screen get the colour, no other pixel changes, and no 32-bit operation overflows. |
| `Lines.ScreenRows` | drivers/qemu_vga.cpp:405-407 | The screen is kept row by row, from left to right. |
| `LineSteps.CanvasAdvance` | kernel/malowanie.c:161-163 | A step of the loop that starts from half the longer difference keeps the same. |
| `LineSteps.CanvasRunsIff` | kernel/malowanie.c:155-164 | The rounds of this loop stay within 32 bits for every flat line, and for steep ones exactly under a condition on the differences and their greatest common divisor. |
| `LineSteps.CanvasCoprime` | kernel/malowanie.c:155-164 | For differences without a common divisor that condition is that their sum is at most 2^31 + 1. |
| `LineSteps.LongestDiagonal` | kernel/malowanie.c:162 | On the diagonal of the positive integers the first subtraction gives -3221225470. |
| `Lines.CanvasPixel` | kernel/malowanie.c:137-145 | A pixel on the canvas gets the four bytes of the colour; nothing else changes. |
| `Lines.ColourBytes` | kernel/malowanie.c:141-144 | The four bytes of a pixel put together, the lowest first, are the colour. |
| `Lines.CanvasRows` | kernel/malowanie.c:69-72 | Pixels follow a header of seven bytes row by row, four bytes each, and fill the buffer. |
| `Lines.CanvasLine` | kernel/malowanie.c:147-165 | For all ends that keep the operations within 32 bits: the same for the canvas, its header included in what does not change. |
| `DesktopLayout.ValueOfDecimal` | graficzny/pulpit.c:72-95 | The decimal digits of a number read back as the number. |
| `DesktopLayout.DecimalPlaces` | graficzny/pulpit.c:82-95 | Digit i from the right is the i-th decimal digit of the number, and no zero is written in front. |
| `DesktopLayout.PartsOfText` | graficzny/pulpit.c:206-224 | A line holds name, x, y and folder flag, with blanks between and a new line behind. |
| `DesktopLayout.Separators` | graficzny/pulpit.c:177-204 | Parts of a text are set apart by blanks, new lines, carriage returns and tabs only. |
| `DesktopLayout.PrintNumber` | graficzny/pulpit.c:82-95 | Appends the decimal digits of the number. |
| `DesktopLayout.TextFits` | graficzny/pulpit.c:206-224 | A layout takes at most 24 characters an icon. |
| `DesktopLayout.PrintLayout` | graficzny/pulpit.c:206-224 | For up to 32 icons, the buffer of 1024 characters holds their lines and the zero behind them. |
| `DesktopLayout.ParseNumber` | graficzny/pulpit.c:72-80 | The value of the longest run of digits. |
| `DesktopLayout.ReadIcon` | graficzny/pulpit.c:189-201 | Where a line of a layout stands, exactly its icon is read and its end reached; every other text is left alone and not left. |
| `DesktopLayout.ReadLayout` | graficzny/pulpit.c:177-204 | The printed text of one to 32 icons gives back the same names, coordinates and folder flags; an empty text leaves what was saved before. |

## Left out

- Gcm.GcmTag: AES itself, its key expansion and its rounds are a function parameter; what is proved holds for every block cipher.
- Sha256.Context.Final: the compression function is a parameter, and the clearing of the context afterwards is not modelled.
- TcpReceiver.Connection.Receive: frames whose IP header announces more bytes than were received, which the code reads from the stale buffer, are outside the model, and the acknowledgement packet is built (`Packets.MakeTcpPacket`) but not sent.
- HandshakeReader.Connection.ReadMessage: records are not encrypted; decryption of handshake records is not modelled.
- DesktopLayout.ParseNumber: the number is unbounded, where an `int` would overflow on ten digits and more.
- RunQueue.RunQueue.PickNext: stealing from other processors, because the number of processors is never set to more than one.
- RunQueue.RunQueue.Enqueue: priority, class and virtual run time of a queued process are taken to stay as they are until it is taken out.
- Paging.Memory.Clone: bitwise or of an address and flags is addition, for aligned addresses and flags below 4096.
- FileSystem.Run: reading past the end of the disk, which never returns, and what a run does once a head is truncated or an unbacked cluster taken.
- FileSystem.Driver.WriteFile: sizes above 2^32 - 512 on volumes of more than 2^23 + 1 clusters, where the counter of stored bytes wraps around.
- FileSystem.Driver.CreateFile: the bytes of an entry that hold dates keep what was there, as in the code; they are not part of any contract.
- ReceiveRing.Ring.Fill: one step of the device fills a whole descriptor; frames longer than a buffer of 2048 bytes are outside the model.
- The elliptic-curve group law, the primality of 2^255 - 19 and hardness of any problem: the proofs are refinements of the standards' formulas.
- Clearing of temporaries that hold secrets, and the time that operations take.
- HMAC, HKDF, the TLS key schedule, ClientHello construction and application records.
- The wait queue: the same links as an urgent list, without bitmap, order or count.
- Whole runs of the scheduler: the code queues the idle task twice and can replace a running process without queueing it.
- The transmit ring of the network card, DHCP, DNS and ARP.
- Port and memory-mapped input and output, delays, PCI scans: the disk is an array of sectors, the network a list of frames, the device one step.
- CD-ROM and floppy paths, directory listing and the name of the current directory; sectors of a cluster beyond the first, except that they are zeroed on allocation.
- Writing of the layout file and reading it back through the file system, and the icons' pictures.
- The compiler, the browser's script engine, windows, menus, fonts, keyboard and mouse.
