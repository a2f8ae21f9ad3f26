# Verified model of three CTF crypto solvers

This project models the computational core of three solver scripts and proves
that the attacks they carry out are correct.

- **nitwit** (`CRYPTO/nitwit/solve_niwit.py`) forges a Winternitz one-time
  signature. Its parameters are base 16, 64 message digits and a checksum
  that is only 2 digits long.
  - The solver has the service sign the all-zero message.
  - It builds a 32-byte message that starts with `admin`, has a chosen nibble
    sum, and has a step vector that dominates the signed one.
  - It pushes every signature chain forward by the difference of the two
    step vectors.

  The model covers:
  - the digit codec `int_to_vec`, including the write-past-the-front
    behaviour of its Python negative indices;
  - `domfree`, `hex_digit_sum`, `construct_msg_with_sum` and the candidate
    search;
  - the forgery and the chain algebra;
  - the quote-aware bracket scanner that cuts the printed signature list out
    of the socket stream, and the length checks of `parse_sig_text`.
- **Augury** (`CRYPTO/Augury/solve.py`) breaks a stream cipher whose 32-bit
  keystream words come from a linear congruential generator. XOR with the
  8-byte PNG signature reveals the first word. The stateful `AuguryCracker`
  then regenerates the whole keystream.
- **Clandescriptorius** (`CRYPTO/Clandescriptorius/solve_clandescriptor.py`)
  exploits a service that derives the keystream block for block `i` of a
  message sent at timestamp `t` from the text `str(t) + str(i)`. The solver:
  - encrypts zeros at timestamp -12;
  - reads block `j(i) = int("3" + str(i))` of the reply, which is the
    keystream block of flag block `i` at timestamp -123;
  - XORs the blocks and strips the PKCS#7 padding.

Modules: `Common` (bytes, errors, XOR, powers, joining byte strings),
`WotsCodec`, `Chains`, `MessageBuilder`, `Forge`, `ListScanner`, `Augury` and
`Clandescriptorius`. Bytes are integers in [0, 255], as Python indexes them.
Every Python exception the modelled code can raise on the arguments the solver
passes is an `Err` of a `Result`.
SHA-256 is a function parameter `h`, and the Clandescriptorius keystream is a
function parameter `ks`.

Two behaviours of the code are modelled exactly as written, although they
differ from what the names of the functions suggest:

- `int_to_vec` does not truncate high-order digits on overflow. When
  `m >= base^L`, the loop index goes negative and Python's negative
  indexing writes the extra digits over the front of the list. The error
  (`IndexError`) only comes at `base^(2L)`. For the zero message the
  checksum is 960 and `int_to_vec(960, 2, 16)` is `[12, 3]`, whose value is
  195 and not 960 mod 256 = 192 (`WotsCodec.IntToVecOverflowExample`,
  `WotsCodec.IntToVecOverflowIsNotTruncation`).
- `hash_chain` with a negative step count does not fail. `range` of a
  negative number is empty, so it returns its input (`Chains.HashChain`).

## Model

| member | source | states |
|---|---|---|
| Common.Zeros | CRYPTO/nitwit/solve_niwit.py:47 | `b"\x00" * k` has max(k, 0) bytes, all zero |
| Common.FromBytesBE | CRYPTO/nitwit/solve_niwit.py:201 | `int.from_bytes(b, "big")` of k bytes is a natural below 256^k |
| Common.Xor | CRYPTO/Augury/solve.py:35 | XOR of two bytes is a byte; XOR with 0 keeps a byte, a byte XOR itself is 0, and XOR with the same key again gives the byte back |
| Common.Concat | CRYPTO/Clandescriptorius/solve_clandescriptor.py:56 | `b"".join(chunks)` starts with the first piece |
| WotsCodec.IntToVecSpec | CRYPTO/nitwit/solve_niwit.py:26-34 | int_to_vec yields exactly L digits, each in [0, base), and raises exactly when m >= base^(2L) |
| WotsCodec.IntToVec | CRYPTO/nitwit/solve_niwit.py:26-34 | the digit-writing loop, with Python's negative-index writes, returns what IntToVecSpec specifies, including the IndexError |
| WotsCodec.WrittenIsSpec | CRYPTO/nitwit/solve_niwit.py:28-34 | after the last division the list slots hold the closed-form digits of IntToVecSpec |
| WotsCodec.WrittenStep | CRYPTO/nitwit/solve_niwit.py:30-33 | one pass writes digit t into slot L-1-t, wrapping to 2L-1-t once t >= L, and leaves every other slot alone |
| WotsCodec.IntToVecRoundTrip | CRYPTO/nitwit/solve_niwit.py:26-34 | for m < base^L, int_to_vec succeeds, gives the plain big-endian digits, and reading them back in base `base` returns m |
| WotsCodec.SlotIsPlain | CRYPTO/nitwit/solve_niwit.py:26-34 | for m < base^L, slot p holds the digit of weight base^(L-1-p) |
| WotsCodec.SlotNotOverwritten | CRYPTO/nitwit/solve_niwit.py:30-33 | below b^L the loop never reaches the wrapped index that would overwrite slot p |
| WotsCodec.PlainDigitsRoundTrip | CRYPTO/nitwit/solve_niwit.py:26-34 | the plain L-digit expansion of m < base^L decodes back to m |
| WotsCodec.PlainDigitsAt | CRYPTO/nitwit/solve_niwit.py:26-34 | slot p of the plain expansion is the digit of weight base^(L-1-p) |
| WotsCodec.IntToVecOverflowExample | CRYPTO/nitwit/solve_niwit.py:14 | with n1 = 2 the checksum 960 of the zero message encodes as [12, 3] |
| WotsCodec.IntToVecOverflowIsNotTruncation | CRYPTO/nitwit/solve_niwit.py:26-39 | that vector reads back as 195, which is not 960 mod 256: the overflow is an overwrite, not a truncation |
| WotsCodec.SumListBounds | CRYPTO/nitwit/solve_niwit.py:38 | a sum of L digits in [0, d] lies in [0, d*L] |
| WotsCodec.SumList | CRYPTO/nitwit/solve_niwit.py:38 | `sum` of non-negative numbers is non-negative, and of zeros is 0 |
| WotsCodec.Domfree | CRYPTO/nitwit/solve_niwit.py:36-40 | domfree gives 66 digits in [0, 15], and fails exactly when int_to_vec fails on the message integer |
| WotsCodec.DomfreeShape | CRYPTO/nitwit/solve_niwit.py:36-40 | for a message integer below 16^64, the first 64 digits decode to it, the checksum input 960 - sum lies in [0, 960], and the last two digits are its int_to_vec |
| WotsCodec.DomfreeZero | CRYPTO/nitwit/solve_niwit.py:185-201 | the step vector s1 of the zero message is 64 zeros followed by [12, 3] |
| Chains.HashChain | CRYPTO/nitwit/solve_niwit.py:21-24 | hash_chain applies H max(steps, 0) times |
| Chains.Chain | CRYPTO/nitwit/solve_niwit.py:21-24 | when every digest is HS bytes, every chain element after at least one step is HS bytes |
| Chains.ChainZero | CRYPTO/nitwit/solve_niwit.py:21-24 | zero steps return the seed |
| Chains.ChainCompose | CRYPTO/nitwit/solve_niwit.py:21-24 | a chain of b steps after a chain of a steps is a chain of a + b steps |
| MessageBuilder.HexDigitSum | CRYPTO/nitwit/solve_niwit.py:42-43 | the nibble sum of b lies in [0, 30*|b|] |
| MessageBuilder.HexDigitSumAppend | CRYPTO/nitwit/solve_niwit.py:42-43 | the nibble sum is additive over concatenation |
| MessageBuilder.HexDigitSumZeros | CRYPTO/nitwit/solve_niwit.py:47-48 | zero padding adds nothing to the nibble sum |
| MessageBuilder.PackNibbles | CRYPTO/nitwit/solve_niwit.py:57 | `(hi << 4) \| lo` has high nibble hi and low nibble lo |
| MessageBuilder.NibbleSplit | CRYPTO/nitwit/solve_niwit.py:51-56 | the hi/lo split of add <= 30 gives two nibbles in [0, 15] that add up to add |
| MessageBuilder.GreedyFill | CRYPTO/nitwit/solve_niwit.py:49-58 | the free bytes written are, position by position, the greedy bytes |
| MessageBuilder.GreedyByteSum | CRYPTO/nitwit/solve_niwit.py:49-58 | free byte j carries min(need0 - 30j, 30) of the sum, or nothing once need0 is placed |
| MessageBuilder.GreedyFillSum | CRYPTO/nitwit/solve_niwit.py:49-58 | the free bytes carry exactly min(need0, 30*free) when need0 >= 0 |
| MessageBuilder.ConstructSpecCorrect | CRYPTO/nitwit/solve_niwit.py:45-61 | the builder succeeds exactly when target_sum lies between the prefix's nibble sum and that sum plus 30 per free byte; a returned message has length max(total_len, len(prefix)), starts with the prefix, and has nibble sum exactly target_sum |
| MessageBuilder.ConstructSpec | CRYPTO/nitwit/solve_niwit.py:45-61 | the only error is "cannot hit target", and a returned message has the padded length max(total_len, len(prefix)) |
| MessageBuilder.ConstructRejects | CRYPTO/nitwit/solve_niwit.py:59-60 | a target below the prefix's own sum, or above what 30 per free byte can add, raises "cannot hit target" |
| MessageBuilder.LeftoverDecides | CRYPTO/nitwit/solve_niwit.py:49-60 | where the loop stops, a non-zero leftover need is exactly the error case of the specification |
| MessageBuilder.NeedStep | CRYPTO/nitwit/solve_niwit.py:50-58 | one pass with need > 0 writes the greedy byte and takes its nibble sum off need |
| MessageBuilder.BufferStart | CRYPTO/nitwit/solve_niwit.py:47-48 | the zero-padded buffer has the padded length and the prefix's nibble sum |
| MessageBuilder.BufferStep | CRYPTO/nitwit/solve_niwit.py:57 | writing the next byte extends the greedy part of the buffer by one |
| MessageBuilder.BufferIsSpec | CRYPTO/nitwit/solve_niwit.py:59-61 | with nothing left over, the buffer is the specified message |
| MessageBuilder.ConstructMsgWithSum | CRYPTO/nitwit/solve_niwit.py:45-61 | the in-place loop returns the specified message or raises exactly as ConstructSpec says |
| Forge.TargetSum | CRYPTO/nitwit/solve_niwit.py:204 | the target nibble sum is 960 - target_c, so a digit sum equal to it gives checksum input target_c (the arithmetic identity behind line 204; that a built message really carries this checksum is proved in Forge.DomfreeOfMessage and Forge.FirstCandidateMessage) |
| Forge.DominatesSteps | CRYPTO/nitwit/solve_niwit.py:210 | s2 dominates s1 exactly when every forged chain moves forward by s2[k] - s1[k] >= 0 steps, so none is clamped to zero |
| Forge.Nibbles | CRYPTO/nitwit/solve_niwit.py:201 | a byte string has two hex digits per byte, each in [0, 15] |
| Forge.NibblesValue | CRYPTO/nitwit/solve_niwit.py:201 | the hex digits read in base 16 give `int.from_bytes(m, "big")` |
| Forge.FromBytesBEBound | CRYPTO/nitwit/solve_niwit.py:201 | the value of k bytes is below 16^(2k) |
| Forge.DigitsUnique | CRYPTO/nitwit/solve_niwit.py:26-34 | a digit vector is the plain expansion of its own value |
| Forge.NibblesSum | CRYPTO/nitwit/solve_niwit.py:38-43 | the digit sum in domfree equals hex_digit_sum of the message |
| Forge.ChecksumDigits | CRYPTO/nitwit/solve_niwit.py:39 | a checksum below 256 encodes as its two hex digits |
| Forge.MessageDigits | CRYPTO/nitwit/solve_niwit.py:37 | the 64 message digits of a 32-byte message are its hex digits |
| Forge.DomfreeOfMessage | CRYPTO/nitwit/solve_niwit.py:36-40 | the step vector of any 32-byte message exists, starts with its hex digits, and ends with the int_to_vec of 960 minus its nibble sum |
| Forge.DomfreeSmallChecksum | CRYPTO/nitwit/solve_niwit.py:36-40 | with that checksum below 256, the step vector is the hex digits followed by its two hex digits |
| Forge.BuiltMessageEncodes | CRYPTO/nitwit/solve_niwit.py:206-209 | a built admin message is 32 bytes long, so domfree never fails on it |
| Forge.SearchInCorrect | CRYPTO/nitwit/solve_niwit.py:203-214 | the search returns the first acceptable candidate with its message and step vector; it fails, with "no dominating step vector", exactly when no candidate is acceptable |
| Forge.SearchIn | CRYPTO/nitwit/solve_niwit.py:203-214 | a chosen target_c is one of the candidates and its step vector dominates s1; the search fails only with "no dominating step vector" |
| Forge.SearchInFirst | CRYPTO/nitwit/solve_niwit.py:203-214 | the chosen candidate is at a position before which no candidate is acceptable |
| Forge.SearchInFails | CRYPTO/nitwit/solve_niwit.py:203-214 | the search fails exactly when no candidate is acceptable |
| Forge.SearchInChoice | CRYPTO/nitwit/solve_niwit.py:206-212 | a chosen candidate is acceptable and comes with its own built message and step vector |
| Forge.SearchInStep | CRYPTO/nitwit/solve_niwit.py:203-212 | one iteration takes the candidate iff it is acceptable, and otherwise moves on |
| Forge.SearchDominating | CRYPTO/nitwit/solve_niwit.py:202-214 | the candidate loop returns what SearchIn specifies over the ten candidates (205, 206, 207, 211, 212, 213, 214, 215, 216, 217) |
| Forge.AdminSum | CRYPTO/nitwit/solve_niwit.py:206 | the nibble sum of `admin` is 71 |
| Forge.ZeroMessagePicksFirst | CRYPTO/nitwit/solve_niwit.py:185-215 | against the zero message, the first candidate 205 already succeeds; its message is 32 bytes, starts with `admin`, has nibble sum 755, and has checksum digits [12, 13] |
| Forge.FirstCandidateMessage | CRYPTO/nitwit/solve_niwit.py:204-210 | the admin message for target_c = 205 exists, is 32 bytes, starts with `admin`, has nibble sum 755, and its step vector ends with [12, 13] |
| Forge.ZeroDominated | CRYPTO/nitwit/solve_niwit.py:210 | 64 zeros followed by [12, 3] are dominated by any step vector whose checksum digits are at least 12 and 3 |
| Forge.Sign | CRYPTO/nitwit/solve_niwit.py:21-24 | signature element i is sk[i] hashed s[i] times |
| Forge.Complete | CRYPTO/nitwit/solve_niwit.py:21-24 | the verifier hashes element i d - s[i] more times |
| Forge.ForgeSignature | CRYPTO/nitwit/solve_niwit.py:219 | the forged element i is sig1[i] hashed max(s2[i] - s1[i], 0) times; a list shorter than n raises IndexError |
| Forge.ForgeryIsSignature | CRYPTO/nitwit/solve_niwit.py:210-219 | pushing a signature on s1 forward to a dominating s2 within [0, d] gives exactly the signature on s2, and it completes to the same public key |
| ListScanner.Step | CRYPTO/nitwit/solve_niwit.py:125-139 | inside a string the depth and quote stay put, an escaped byte never ends the string, and only the opening quote ends it; outside a string, '[' and ']' move the depth by one |
| ListScanner.ClosesBalances | CRYPTO/nitwit/solve_niwit.py:136-141 | the stop test holds exactly on a ']' read outside a string whose step leaves the scanner outside strings at depth 0 |
| ListScanner.RunSnoc | CRYPTO/nitwit/solve_niwit.py:115-142 | scanning one more byte is one more Step |
| ListScanner.Find | CRYPTO/nitwit/solve_niwit.py:105 | `buf.find(b"[")` is -1 iff there is no '[', and otherwise the index of the first one |
| ListScanner.FindUnique | CRYPTO/nitwit/solve_niwit.py:105 | an index holding x with no x before it is what find returns |
| ListScanner.FindExtends | CRYPTO/nitwit/solve_niwit.py:99-108 | receiving more bytes does not move the first '[' |
| ListScanner.InStringKeepsDepth | CRYPTO/nitwit/solve_niwit.py:125-131 | bytes read while inside a string never change the depth, whatever brackets they contain |
| ListScanner.ScanFrom | CRYPTO/nitwit/solve_niwit.py:115-142 | a finished scan ends after its starting position, within the buffer, on a ']' byte; the only failure is "closed while reading" |
| ListScanner.ScanSpec | CRYPTO/nitwit/solve_niwit.py:105-142 | the reader fails only before '[' or while reading; a result has at least two bytes, starts with '[' and ends with ']' |
| ListScanner.ScanFromFirstClose | CRYPTO/nitwit/solve_niwit.py:115-142 | the scan stops at the first byte where the stop test holds, and fails with "closed while reading" exactly when no byte passes it |
| ListScanner.ScanFromExtends | CRYPTO/nitwit/solve_niwit.py:115-142 | bytes after a completed list are never looked at |
| ListScanner.ScanSpecErrors | CRYPTO/nitwit/solve_niwit.py:99-102 | the reader fails before '[' iff the stream has no '[', and otherwise fails only while reading |
| ListScanner.ScanSpecSpan | CRYPTO/nitwit/solve_niwit.py:105-124 | the result is a contiguous slice of the stream that starts at its first '[' and holds at least two bytes |
| ListScanner.ScanSpecCloses | CRYPTO/nitwit/solve_niwit.py:136-141 | the result ends at the first byte that closes the opening bracket |
| ListScanner.ScanSpecBalanced | CRYPTO/nitwit/solve_niwit.py:110-142 | over the result the depth stays >= 1 on every proper prefix and returns to 0 outside any string at the end |
| ListScanner.DepthStaysPositive | CRYPTO/nitwit/solve_niwit.py:136-141 | before the closing byte the depth never drops below 1 |
| ListScanner.ScanSpecPrefixStable | CRYPTO/nitwit/solve_niwit.py:115-142 | a result found in a prefix of the stream is the result on the whole stream |
| ListScanner.ScanByte | CRYPTO/nitwit/solve_niwit.py:125-141 | the state update for one byte is Step, and it stops exactly on the closing ']' |
| ListScanner.ReceiveUntilOpen | CRYPTO/nitwit/solve_niwit.py:98-108 | the first loop ends with the received prefix of the stream and the index of its first '[', or -1 only once every chunk has been received |
| ListScanner.ReceiveNext | CRYPTO/nitwit/solve_niwit.py:100-103 | after each recv the buffer is the next prefix of the stream |
| ListScanner.OpenReceived | CRYPTO/nitwit/solve_niwit.py:105-108 | the first '[' in the received bytes is the first '[' of the whole stream |
| ListScanner.ScanNext | CRYPTO/nitwit/solve_niwit.py:123-142 | a closing byte ends the result there; any other byte moves the scan on |
| ListScanner.ScanOutOfBytes | CRYPTO/nitwit/solve_niwit.py:116-119 | running out of bytes inside the list is "closed while reading" |
| ListScanner.ReadListLiteral | CRYPTO/nitwit/solve_niwit.py:97-144 | the two receive-and-scan loops return ScanSpec of the whole stream, whatever its chunking |
| ListScanner.CheckSignatureShape | CRYPTO/nitwit/solve_niwit.py:166-171 | the list is accepted iff it has n elements of HS bytes each; the first bad element raises the element-length error before the count is checked |
| Augury.GenerateKeystream | CRYPTO/Augury/solve.py:10-12 | the LCG step yields a 32-bit word |
| Augury.GenerateKeystreamMod | CRYPTO/Augury/solve.py:10-12 | the step depends only on its input modulo 2^32 |
| Augury.KeyWord | CRYPTO/Augury/solve.py:18-22 | keystream word n is a 32-bit word |
| Augury.BE4 | CRYPTO/Augury/solve.py:20 | `to_bytes(4, "big")` gives four bytes |
| Augury.BE4RoundTrip | CRYPTO/Augury/solve.py:20 | reading those four bytes back big-endian gives the word |
| Augury.FromBytesBE4 | CRYPTO/Augury/solve.py:105 | `int.from_bytes` of four bytes, written out |
| Augury.XorStream | CRYPTO/Augury/solve.py:24-37 | the decryption has the input's length, and byte k is input byte k XOR keystream byte k |
| Augury.XorStreamInvolution | CRYPTO/Augury/solve.py:24-37 | decrypting twice from the same state gives the input back |
| Augury.KeyByteAt | CRYPTO/Augury/solve.py:29-35 | keystream byte k is byte k mod 4 of word k div 4 |
| Augury.AuguryCracker.constructor | CRYPTO/Augury/solve.py:15-16 | the cracker starts at the known keystream word |
| Augury.AuguryCracker.GetNextKeyBytes | CRYPTO/Augury/solve.py:18-22 | returns the current word's 4 big-endian bytes and steps the state; a word outside 32 bits raises OverflowError and leaves the state as it was |
| Augury.AuguryCracker.Decrypt | CRYPTO/Augury/solve.py:24-37 | decrypt returns the keystream XOR of the whole input and leaves the state ceil(len/4) words on; from a state outside 32 bits it raises, unless the input is empty |
| Augury.DecryptedSnoc | CRYPTO/Augury/solve.py:34-35 | appending chunk byte j XOR key byte j extends a correct decryption prefix by one |
| Augury.DecryptedAll | CRYPTO/Augury/solve.py:29-37 | a correct prefix as long as the input is the whole XorStream |
| Augury.RecoveredSeed | CRYPTO/Augury/solve.py:98-105 | the recovered first word is a 32-bit word |
| Augury.RecoverKeystream | CRYPTO/Augury/solve.py:92-105 | the 8 recovered bytes are the ciphertext XOR the PNG signature, and the seed is the first 4 of them read big-endian; fewer than 8 bytes raise IndexError |
| Augury.SeedRecoveryCorrect | CRYPTO/Augury/solve.py:92-119 | for a PNG encrypted from seed k0, the recovered word is k0, the cracker decrypts the file exactly, and the success check at line 119 holds |
| Augury.XorSwap | CRYPTO/Augury/solve.py:100 | (p XOR k) XOR p is k, which is why the header reveals the key |
| Clandescriptorius.Chunks | CRYPTO/Clandescriptorius/solve_clandescriptor.py:6-7 | `chunks(bs, n)` has ceil(len/n) pieces |
| Clandescriptorius.ChunksShape | CRYPTO/Clandescriptorius/solve_clandescriptor.py:6-7 | no pieces iff the input is empty; every piece but the last has n bytes; the last has 1 to n |
| Clandescriptorius.ChunksConcatPrefix | CRYPTO/Clandescriptorius/solve_clandescriptor.py:6-7 | the first m pieces joined are the first min(m*n, len) bytes |
| Clandescriptorius.ChunksConcat | CRYPTO/Clandescriptorius/solve_clandescriptor.py:6-7 | joining the pieces gives the input back |
| Clandescriptorius.ChunksOfConcat | CRYPTO/Clandescriptorius/solve_clandescriptor.py:6-7 | cutting a join of n-byte blocks gives the blocks back |
| Clandescriptorius.ConcatFixed | CRYPTO/Clandescriptorius/solve_clandescriptor.py:56 | a join of n-byte blocks has block i at bytes [i*n, i*n+n) |
| Clandescriptorius.NumBlocksCover | CRYPTO/Clandescriptorius/solve_clandescriptor.py:41 | ceil(len/n) blocks cover len bytes |
| Clandescriptorius.NumBlocksExact | CRYPTO/Clandescriptorius/solve_clandescriptor.py:41 | m*n bytes make exactly m blocks |
| Clandescriptorius.LastBytes | CRYPTO/Clandescriptorius/solve_clandescriptor.py:13 | `b[-k:]` has min(k, len) bytes and is the tail of b |
| Clandescriptorius.Pkcs7Unpad | CRYPTO/Clandescriptorius/solve_clandescriptor.py:9-15 | the result is always a prefix of the input |
| Clandescriptorius.Pkcs7UnpadSpec | CRYPTO/Clandescriptorius/solve_clandescriptor.py:9-15 | valid padding (last byte k in [1, 16], last k bytes all k) is stripped; anything else is returned unchanged |
| Clandescriptorius.Pkcs7UnpadPadded | CRYPTO/Clandescriptorius/solve_clandescriptor.py:9-15 | unpadding p followed by k copies of k, for 1 <= k <= 16, gives p back |
| Clandescriptorius.NatStr | CRYPTO/Clandescriptorius/solve_clandescriptor.py:45 | `str(i)` of a natural is non-empty decimal digits with no leading zero |
| Clandescriptorius.ParseNatStr | CRYPTO/Clandescriptorius/solve_clandescriptor.py:45 | `int(str(i)) == i` |
| Clandescriptorius.StrRoundTrip | CRYPTO/Clandescriptorius/solve_clandescriptor.py:45 | `str(i)` is the digits of |i|, behind a minus sign exactly when i is negative, and those digits read back to |i| |
| Clandescriptorius.ParseNat | CRYPTO/Clandescriptorius/solve_clandescriptor.py:45 | `int(s)` of k decimal digits is a natural below 10^k |
| Clandescriptorius.NatStrParse | CRYPTO/Clandescriptorius/solve_clandescriptor.py:45 | `str(int(s)) == s` for digit strings without a leading zero |
| Clandescriptorius.ParseNatAppend | CRYPTO/Clandescriptorius/solve_clandescriptor.py:45 | `int(a + b) == int(a) * 10^len(b) + int(b)` |
| Clandescriptorius.KeyNameTrick | CRYPTO/Clandescriptorius/solve_clandescriptor.py:42-45 | `str(-12) + str(j(i)) == str(-123) + str(i)` for every i |
| Clandescriptorius.JFor | CRYPTO/Clandescriptorius/solve_clandescriptor.py:45 | j(i) = int("3" + str(i)) is 3 * 10^len(str(i)) + i |
| Clandescriptorius.JForIncreasing | CRYPTO/Clandescriptorius/solve_clandescriptor.py:45 | j is strictly increasing |
| Clandescriptorius.JForList | CRYPTO/Clandescriptorius/solve_clandescriptor.py:45 | `j_for` has nb entries, entry i being j(i) |
| Clandescriptorius.SeqMax | CRYPTO/Clandescriptorius/solve_clandescriptor.py:46 | `max` of a non-empty list is an element at least as large as every element; an empty list raises ValueError |
| Clandescriptorius.MaxJIsLast | CRYPTO/Clandescriptorius/solve_clandescriptor.py:45-46 | maxj is j(nb - 1) |
| Clandescriptorius.JForBelowLast | CRYPTO/Clandescriptorius/solve_clandescriptor.py:45-46 | no j(i) of the flag's blocks exceeds j(nb - 1) |
| Clandescriptorius.XorZip | CRYPTO/Clandescriptorius/solve_clandescriptor.py:54 | the zip XOR is as long as the shorter input, and byte i is the XOR of the two bytes i |
| Clandescriptorius.XorZipInvolution | CRYPTO/Clandescriptorius/solve_clandescriptor.py:54 | XOR with the same keystream block twice gives the block back |
| Clandescriptorius.XorZipZeros | CRYPTO/Clandescriptorius/solve_clandescriptor.py:29 | encrypting zeros yields the keystream itself |
| Clandescriptorius.ZeroRequest | CRYPTO/Clandescriptorius/solve_clandescriptor.py:29 | the zero request is 16*(maxj+1) bytes, which is maxj+1 blocks |
| Clandescriptorius.PlainBlocks | CRYPTO/Clandescriptorius/solve_clandescriptor.py:50-54 | one plaintext block per flag block |
| Clandescriptorius.Recover | CRYPTO/Clandescriptorius/solve_clandescriptor.py:41-56 | an empty flag, and only an empty flag, raises ValueError at `max`; the only other error is IndexError |
| Clandescriptorius.RecoverErrors | CRYPTO/Clandescriptorius/solve_clandescriptor.py:41-56 | an empty flag raises ValueError at `max`; a reply of the requested length makes the recovery succeed |
| Clandescriptorius.FullBlocks | CRYPTO/Clandescriptorius/solve_clandescriptor.py:6-7 | 16*nb bytes cut into nb full blocks |
| Clandescriptorius.ServiceChunks | CRYPTO/Clandescriptorius/solve_clandescriptor.py:36-37 | cutting the service's reply gives its per-block ciphertexts |
| Clandescriptorius.ZeroBlocks | CRYPTO/Clandescriptorius/solve_clandescriptor.py:27-37 | block j of the reply to the zero request is the keystream block for "-12" + str(j) |
| Clandescriptorius.BlockRecovered | CRYPTO/Clandescriptorius/solve_clandescriptor.py:50-54 | flag block i XOR reply block j(i) is plaintext block i |
| Clandescriptorius.ReplyCoversFlag | CRYPTO/Clandescriptorius/solve_clandescriptor.py:41-54 | the reply to the zero request has j(nb - 1) + 1 blocks, so every j(i) of the flag's nb blocks is in range |
| Clandescriptorius.PlainBlockAt | CRYPTO/Clandescriptorius/solve_clandescriptor.py:50-54 | block i of the solver's XORs is block i of the padded flag |
| Clandescriptorius.PlainBlocksRecovered | CRYPTO/Clandescriptorius/solve_clandescriptor.py:50-54 | the solver's per-block XORs are exactly the blocks of the padded flag |
| Clandescriptorius.KeystreamReuse | CRYPTO/Clandescriptorius/solve_clandescriptor.py:39-56 | for a flag of nb full blocks encrypted at -123, the solver's recovery from the reply at -12 is exactly the unpadded plaintext |

## Left out

- Sockets, TLS, HTTP requests and JSON, `recv_until`, `drain`, printing and
  file writes are I/O and are not modelled.
- The modelled stream is the sequence of chunks that `recv` returns after the
  last chunk read by `recv_until` (lines 67-77). `recv_until` reads whole
  `recv(4096)` chunks, and line 95 discards its return value, so the source
  itself drops any bytes that follow the marker "Your signature is:" in that
  last chunk, possibly including the '[' or the whole list. The model starts
  after that chunk, as the source does.
- ReadListLiteral: returns the raw bytes of the list. The source returns
  `out.decode("utf-8", errors="ignore")` (line 144), which drops any bytes
  that are not valid UTF-8; that decoding is not modelled.
- ReadListLiteral: requires every chunk to be non-empty, because a real
  `recv` returning nothing is the end of the stream, which the model
  represents as the end of the chunk list.
- `ast.literal_eval`, `bytes.fromhex` and the element-type cases of
  `parse_sig_text` (lines 147-165) are not modelled; only its length checks
  (lines 166-171) are, on already decoded elements.
- SHA-256 is the function parameter `h`. No property of SHA-256 is used.
- `n1 = int(log(n0, d+1)) + 1` uses floating point; the model fixes n1 at 2,
  the value the code comments give.
- `math.ceil(len(cflag)/16)` is floating point; the model uses the integer
  ceiling, which agrees with it for every length below 2^53.
- Hex decoding and the regular-expression clean-up of the Augury download,
  the `latin-1`/`utf-8` decodes, and the flag search in the decrypted text are
  not modelled; Decrypt takes the ciphertext as bytes.
- WotsCodec.IntToVec: requires base >= 2. Base 0 raises ZeroDivisionError and
  base 1 raises IndexError at line 31; both call sites (lines 37 and 39) pass
  16, so no behaviour of the solver is lost.
- Chunks: requires n > 0. `range` with step 0 raises, and a negative step
  gives no pieces; the solver only ever uses 16.
- Recover: returns the unpadded flag as bytes. The source decodes it with
  `decode("utf-8", "replace")` (line 56); that decoding is not modelled.
- KeystreamReuse: assumes the flag ciphertext is a whole number of 16-byte
  blocks. It models the service as XOR with a keystream function of the text
  `str(t) + str(i)`, which is the service behaviour the solver relies on; the
  service's own code is not part of this model.
- The choice of the ten candidate checksums and of `admin` as prefix are
  constants of the model, as in the code; other prefixes are covered by
  `MessageBuilder` but not by `Forge.ZeroMessagePicksFirst`.
