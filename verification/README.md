# Verified model of the aws-c-cal algorithms

aws-c-cal puts one interface over the cryptographic libraries of three platforms. Most of it hands work on to those libraries; five parts contain algorithms of their own, and those are modelled and proved here:

- **AES key wrap** (RFC 3394) on OpenSSL: an in-place double loop over one output buffer. It is proved to compute the shift-register formulation of the RFC for every block permutation, exactly as far as its one-byte step value reaches, and unwrapping is proved to accept exactly what wrapping produces.
- **DER**: the encoder, a stack machine over buffers, and the decoder, a recursive parser with a depth limit. Printing and parsing are proved to be inverse to each other, and every run of encoder calls is proved to be read back as the items written.
- **Streaming CTR, CBC and GCM** on Windows: buffering in front of a block-oriented provider. The result is proved independent of how the input is split into calls, and of whatever was done before a reset.
- **ECC keys and ECDSA signatures** on top of DER: the key formats of RFC 5915 and RFC 5480 load as the keys they hold, and signatures survive the conversion to and from the format of RFC 3279.
- **The cipher interface**: the `good` flag, over all sequences of calls and any provider.

AES is an arbitrary pair of functions on 16-byte blocks (`BlockCipher`), assumed mutually inverse (`Permutation`) only where something is decrypted. Code that updates objects is modelled by classes whose methods are proved against functions on values; the theorems are about those functions and about whole runs of the methods.

| file | contents |
|---|---|
| `Bytes.dfy`, `BlockCiphers.dfy` | bytes, exclusive-or, big-endian numbers, buffers, block ciphers |
| `KeyWrapRegisters.dfy`, `KeyWrapSpec.dfy`, `KeyWrap.dfy` | shift and index form of the register machine; wrap and unwrap as functions; the in-place loops and the cipher object |
| `DerSyntax.dfy`, `DerList.dfy`, `DerDecoder.dfy` | forests of elements, printing and parsing; the list of entries and what its counts come to; the decoder object |
| `DerDocument.dfy`, `DerEncoder.dfy` | what a run of encoder calls means and how it is read back; the encoder object |
| `Ecc.dfy`, `Ecdsa.dfy` | key loading; signature conversion |
| `CipherCommon.dfy`, `CipherLifecycle.dfy` | size limit and shared parts; the `good` flag over whole runs |
| `Ctr.dfy`, `CbcSpec.dfy`, `Cbc.dfy`, `Gcm.dfy` | the streaming modes |
| `ModeRuns.dfy` | the modes as providers behind the cipher interface |

`dafny verify dfyconfig.toml` checks everything.

Where code and standard differ, the model follows the code:

- The key wrap step value is cut to one byte, so wrapping agrees with RFC 3394 for all permutations if and only if there are at most 42 blocks (`RfcAgreementIsExactly42Blocks`).
- Wrapping counts blocks from the front and unwrapping from the end, so a text that is not of whole 8-byte blocks is wrapped successfully but need not unwrap (`RoundTripIsExactlyWholeBlocks`, with a text for every such length).
- The decoder keeps a pointer to the current container in a list whose storage is replaced as it grows. Counts written after that go to memory already freed; the model drops and records them. `StoredIsFlatten` and `NewDecoder` give the exact condition, `SixteenNullsAreMiscounted` an input.
- The decoder does not compare a length with what is left of its input. Where a value would lie outside, the model stops with a status of its own (`LengthBeyondInput`).
- Lengths from 65536 to 2^24 - 1 are written in four octets where DER demands three (`LengthsAreShortestExactly`), and lengths in three octets are refused when read (`ThreeOctetLengthsAreRefused`).
- The decoder skips bytes 0x0a after an element, so an element with that tag, ENUMERATED, cannot follow another one (`WellFormed`; `EnumeratedReadsAsBoolean` is an input).
- A DER signature whose first integer is too long stops the process at an assertion for exactly the lengths given by `AbortsExactly`; `SignatureThatAborts` is one.
- A counter-mode message that uses up the last counter value is written in full, and an error is reported (`CtrCipher.Finalize`).
- An empty GCM message leads to no provider call, and so to no tag (`Finished`); an empty CBC message is sealed as nothing rather than as one block of padding (`Seal`).

## Model

| member | source | states |
|---|---|---|
| KeyWrapRegisters.ShiftIsRotatedIndex | source/unix/openssl_aes.c:528-553 | for every step function, the first k steps of the shifting machine leave the registers of the indexed machine rotated by k: the lemma that turns the RFC's first formulation into the code's loops |
| KeyWrapRegisters.UndoIndex | source/unix/openssl_aes.c:597-622 | the descending loops with an inverse step undo any prefix of the ascending loops |
| KeyWrapSpec.InitialValueBytes | source/unix/openssl_aes.c:487-510 | the initial value is eight bytes 0xA6 |
| KeyWrapSpec.CutMixIsXor | source/unix/openssl_aes.c:541-544 | mixing is exclusive-or with t cut to a byte: the first seven bytes stay, the last changes bit by bit |
| KeyWrapSpec.WrapOneEquation | source/unix/openssl_aes.c:530-547 | a step gives A and R if and only if enc(old A, old R) is A combined with t, then R: the equation of section 2.2.1 of RFC 3394, through the block cipher alone |
| KeyWrapSpec.UnwrapOneEquation | source/unix/openssl_aes.c:599-616 | a step back gives A and R if and only if dec(old A combined with t, old R) is A, then R |
| KeyWrapSpec.WrapsAreTraces | source/unix/openssl_aes.c:502-555 | whatever sequence of register states obeys the equations of section 2.2.1, its last state is the RFC ciphertext, and with t cut to a byte the code's, the bytes past the last whole block being copied |
| KeyWrapSpec.TracesExist | source/unix/openssl_aes.c:502-555 | there is such a sequence for every block cipher and text |
| KeyWrapSpec.WrapAllIsShiftAll | source/unix/openssl_aes.c:519-553 | the code's six passes equal the 6n shifts of section 2.2.1 of RFC 3394 with t taken mod 256, for every number of blocks |
| KeyWrapSpec.WrapIsRfcWrap | source/unix/openssl_aes.c:502-555 | for 2 to 42 blocks and every block cipher the result is exactly the RFC's |
| KeyWrapSpec.WrapLeavesRfcAbove42Blocks | source/unix/openssl_aes.c:541-544 | for every longer text the identity permutation gives another result than the RFC |
| KeyWrapSpec.RfcAgreementIsExactly42Blocks | source/unix/openssl_aes.c:519-553 | agreement with the RFC for all permutations and texts of n blocks holds if and only if n <= 42 |
| KeyWrapSpec.UnwrapOfWrap | source/unix/openssl_aes.c:490-634 | unwrapping a wrapped text of any length returns it with the integrity register intact if and only if wrapping over blocks counted from the end gives the same result; always so for whole blocks |
| KeyWrapSpec.WrapOfUnwrap | source/unix/openssl_aes.c:558-634 | any input that unwraps with the register intact is the result wrapped over blocks counted from the end, and for whole blocks the wrap of the result |
| KeyWrapSpec.UnwrapAcceptsExactlyWraps | source/unix/openssl_aes.c:558-634 | for every length the integrity value is found if and only if the input is some text wrapped over blocks counted from the end, which is then the result; for whole blocks those are the wrapped texts |
| KeyWrapSpec.UnwrapOfWrapFromEnd | source/unix/openssl_aes.c:585-588 | unwrapping inverts wrapping over blocks counted from the end, at every length |
| KeyWrapSpec.MarkedTextIsRefused | source/unix/openssl_aes.c:519-588 | at every length that is not of whole blocks, a permutation and a text whose wrap is refused |
| KeyWrapSpec.RoundTripIsExactlyWholeBlocks | source/unix/openssl_aes.c:519-588 | unwrapping inverts wrapping for all permutations and texts of a length if and only if 8 divides it |
| KeyWrapSpec.AcceptanceIsExactlyWholeBlocks | source/unix/openssl_aes.c:519-634 | exactly the wrapped texts of a length are accepted, for all permutations, if and only if 8 divides it |
| KeyWrapSpec.RewrapIsExactlyWholeBlocks | source/unix/openssl_aes.c:519-634 | whatever is accepted at a length wraps back to the same input, for all permutations, if and only if 8 divides it |
| KeyWrap.EncryptInPlace | source/unix/openssl_aes.c:530-547 | one inner step: the new A and R obey the RFC's equation with t cut to a byte, and every other byte of the buffer stays |
| KeyWrap.DecryptInPlace | source/unix/openssl_aes.c:599-616 | one inner step back: the returned A and the new R obey the RFC's equation, and every other byte of the buffer stays |
| KeyWrap.WrapLoops | source/unix/openssl_aes.c:516-553 | the nested loops with their moving pointer take any register layout to the wrapped one; all bytes around it stay |
| KeyWrap.UnwrapLoops | source/unix/openssl_aes.c:585-622 | the descending loops from the end of the buffer compute the unwrapped registers and A; all bytes around them stay |
| KeyWrap.CheckIntegrity | source/unix/openssl_aes.c:624-630 | true if and only if all eight bytes are 0xA6 |
| KeyWrap.KeyWrapCipher.Update | source/unix/openssl_aes.c:476-484 | input is gathered, nothing else changes |
| KeyWrap.KeyWrapCipher.FinalizeEncryption | source/unix/openssl_aes.c:490-556 | when each status occurs, what becomes of `good`, and that out's bytes stay and exactly the wrapped text is appended on success |
| KeyWrap.KeyWrapCipher.FinalizeDecryption | source/unix/openssl_aes.c:558-634 | success exactly when the integrity value is found; then exactly the text is appended, otherwise out's length stays and `good` is false except for a short buffer |
| KeyWrap.KeyWrapCipher.Reset | source/unix/openssl_aes.c:126-134 | the state of a new cipher |
| KeyWrap.WrapChunks | source/unix/openssl_aes.c:476-556 | text fed in any chunks to a new cipher comes out as the last state of every sequence that obeys the RFC's equations with t cut to a byte, and as the RFC's ciphertext up to 42 blocks |
| KeyWrap.UnwrapChunks | source/unix/openssl_aes.c:476-634 | input of any length fed in any chunks is accepted if and only if it is a text wrapped over blocks counted from the end, and that text comes back; for whole blocks those are the wrapped texts |
| DerSyntax.ReadWrittenHeader | source/der.c:54-89 | a written tag and length, in any form that fits, is read back whatever follows |
| DerSyntax.LengthOctetsAre | source/der.c:117-146 | the length octets of each form by division, most significant first |
| DerSyntax.LengthReadIs | source/der.c:54-89 | the header read from any input, by multiplication, and exactly which inputs are refused |
| DerSyntax.ConstructedIsBit5 | source/der.c:407 | elements entered are those with bit 0x20 in their tag |
| DerSyntax.DepthLimitIs15 | source/der.c:385-389 | k sequences inside each other are read if and only if k <= 15 |
| DerSyntax.ParseOfPrint | source/der.c:385-428 | a printed well-formed forest parses if and only if nested at most 15 deep, and to that forest |
| DerSyntax.PrintOfParse | source/der.c:385-428 | whatever parses is a well-formed forest that prints back to the same octets |
| DerSyntax.ParsesExactlyWellFormed | source/der.c:54-98 | input parses to a forest if and only if it is the printing of that well-formed forest, nested at most 15 deep |
| DerSyntax.EnumeratedReadsAsBoolean | source/der.c:397-399 | a NULL followed by an ENUMERATED 0 parses, as a NULL and an empty BOOLEAN |
| DerSyntax.LengthBeyondInput | source/der.c:91-97 | a first element longer than the input is the outcome for values outside the input |
| DerList.CountsAddUp | source/der.c:400-422 | the counts of all entries and the number of top-level elements sum to the length of the list |
| DerList.FlattenOfCons | source/der.c:400-422 | a container is listed in front of its elements, these in front of what follows, with tag, length, count and octets |
| DerList.FlattenOfPrim | source/der.c:39-52 | any other element is listed alone, with its value by tag |
| DerList.CapacityIs | source/der.c:361 | the storage has 16 entries times a power of two |
| DerList.GrowthsIs | source/der.c:361 | the number of times a doubling storage of 16 entries has been replaced when entry i is put in it |
| DerList.ReachedAll | source/der.c:403-405 | a container counts all its elements if and only if each is stored while the storage has been replaced as often as when the container was |
| DerList.StoredIsFlatten | source/der.c:400-422 | the counts are right if and only if no container has an element stored after a later replacement of the storage |
| DerList.SmallListsDoNotCross | source/der.c:361 | no list within the 16 entries first allocated has such a container |
| DerList.TopLevelElementsDoNotCross | source/der.c:403-405 | nor has a list of any length without containers |
| DerList.NullSequencesCross | source/der.c:400-422 | a sequence of k NULLs parses; its count is written to storage already replaced if and only if k >= 16, and then reads 15 |
| DerList.SixteenNullsAreMiscounted | source/der.c:400-422 | the input 30 20 followed by sixteen NULLs: a container of sixteen reported as fifteen |
| DerDecoder.ReadTagAndLength | source/der.c:54-89 | succeeds exactly on a readable header, with its tag, its length by arithmetic and the rest of the input |
| DerDecoder.DecodeTlv | source/der.c:39-52 | the value is the contents without the zero octet of an INTEGER that has one, without the first octet of a BIT STRING, none for NULL, and otherwise all of them; and the length that goes with it |
| DerDecoder.ReadTlv | source/der.c:54-98 | reads the first element of the syntax; malformed input is refused, and a value outside the input is an outcome of its own |
| DerDecoder.SkipNewlines | source/der.c:397-399 | drops all leading newlines and nothing else |
| DerDecoder.Decoder.Push | source/der.c:400-402 | appends an entry; full storage is replaced by twice as much, so that the number of replacements is a function of the position |
| DerDecoder.Decoder.CountElement | source/der.c:403-405 | counts one element in its container, or records that the container is in storage already replaced |
| DerDecoder.Decoder.ParseElement | source/der.c:391-423 | one turn of the loop appends one element as stored, counts it if its container is still in place, records a write to replaced storage if it is not, and restores depth and container |
| DerDecoder.Decoder.ParseCursor | source/der.c:385-428 | succeeds exactly when the syntax does at that depth; appends the forest as stored, with the exact counts and record of writes to replaced storage however long the list grows, and restores depth and container |
| DerDecoder.NewDecoder | source/der.c:352-375 | the status for every input; no decoder for malformed input; for input that parses, the list is the forest in pre-order, a write to replaced storage happened if and only if a container crosses a replacement, and the counts are right if and only if none does |
| DerDecoder.Decoder.Next | source/der.c:434-436 | advances by one and tells whether an entry is there |
| DerDocument.EncodeOneMore | source/der.c:113-192 | the recursive encoding of a forest grows by exactly what the writer writes for one more item |
| DerDocument.EncodedItem | source/der.c:113-272 | the octets of every kind of item: its tag as a literal, its length and its contents with the zero octets of INTEGER and BIT STRING |
| DerDocument.WrittenLengthIs | source/der.c:117-146 | the length octets for every 32-bit length, by arithmetic |
| DerDocument.StepMatches | source/der.c:225-317 | every successful call keeps each level's buffer equal to the encoding of the items closed at that level |
| DerDocument.RunMatches | source/der.c:194-317 | so does every run: in all reachable states each buffer is the concatenated encoding of its closed children |
| DerDocument.CallsBuild | source/der.c:225-317 | the calls that write a forest in order build exactly that forest |
| DerDocument.CallsRun | source/der.c:113-317 | from any state those calls succeed if and only if the encoding fits behind what the current buffer holds, and then append exactly it |
| DerDocument.ForestIsWritten | source/der.c:194-317 | every legal forest can be written, if and only if the capacity holds its encoding |
| DerDocument.IntegersKeepTheirValue | source/der.c:39-45 | integers without leading zero are reported as written, and all integers keep their unsigned value |
| DerDocument.EncodingReadsBack | source/der.c:352-428 | the encoding of a document parses if and only if it is nested at most 15 deep, and is then reported item by item with the same tags, lengths, counts and values |
| DerDocument.RunReadsBack | source/der.c:194-428 | the same for the contents left by any balanced run of successful calls |
| DerDocument.TrailingNewlines | source/der.c:397-399 | any number of newlines behind an input leaves the decoded list unchanged |
| DerDocument.OctetsNeededIsLeast | source/der.c:117-146 | the fewest octets that hold a number, the reference for shortest lengths |
| DerDocument.LengthsAreShortestExactly | source/der.c:117-146 | the length octets are the fewest that sections 8.1.3 and 10.1 of X.690 allow if and only if the length is not between 65536 and 2^24 - 1 |
| DerDocument.LengthThatIsNotShortest | source/der.c:117-146 | length 65536 in five octets where four would do |
| DerDocument.ThreeOctetLengthsAreRefused | source/der.c:54-89 | the decoder refuses every element whose length is given in three octets |
| DerEncoder.WriteLength | source/der.c:117-146 | writes the length octets, stated by arithmetic, or fails with a proper part of them |
| DerEncoder.WriteTlv | source/der.c:113-192 | writes exactly tag, length octets and contents if they all fit, and otherwise fails with only a proper part of them left in the buffer |
| DerEncoder.Encoder.Write | source/der.c:225-272 | succeeds exactly when the machine's step does, with that step's state |
| DerEncoder.Encoder.Begin | source/der.c:274-291 | opens a new empty level, whose buffer becomes the one written to |
| DerEncoder.Encoder.End | source/der.c:293-317 | closes the innermost level into one element of the level around it; fails exactly when none is open or it does not fit |
| DerEncoder.Encoder.GetContents | source/der.c:335-345 | succeeds exactly when no container is open and something was written |
| DerEncoder.EncodeDocument | source/der.c:194-345 | for every sequence of calls: the contents are the encoding of the forest the calls describe, and the decoder recovers that forest when it is nested at most 15 deep |
| Ecc.CurveFromOid | source/ecc.c:43-55 | recognises an identifier if and only if it is a curve's own: inverse to the map from curves to identifiers |
| Ecc.CurvesAre | source/ecc.c:17-55 | the two identifiers as octets, each with its curve and the size of its coordinates |
| Ecc.LastCurveAt | source/ecc.c:217-229 | the curve is that of the last entry that names one |
| Ecc.NoCurveIffNoneNamed | source/ecc.c:217-241 | there is no curve if and only if no entry names one |
| Ecc.FirstStringAt | source/ecc.c:233-236 | the first string is that of the first entry with tag 3 or 4 |
| Ecc.LastStringAt | source/ecc.c:233-236 | the last string is that of the last such entry |
| Ecc.StringsCounted | source/ecc.c:233-236 | there are as many strings as entries with tag 3 or 4 |
| Ecc.UnknownExactly | source/ecc.c:239-241 | the identifier is reported unknown if and only if no entry names a curve |
| Ecc.LoadsExactly | source/ecc.c:243-282 | a list with a curve loads if and only if its first string, or the last of several, has the size of a private or public key of that curve, and d, x and y are those |
| Ecc.LoadedShape | source/ecc.c:243-282 | any loaded key has a coordinate-sized or empty d, coordinate-sized or empty x and y that are a listed string without its first byte, and at least one of the two keys |
| Ecc.FindParts | source/ecc.c:205-237 | the first string, the last later string and the last recognised curve of any list |
| Ecc.LoadKeyPair | source/ecc.c:194-283 | the result for every list, and that all outputs are empty on failure |
| Ecc.LoadsRfc5915 | source/ecc.c:194-283 | for both curves and all coordinate-sized d, x, y the encoding of section 3 of RFC 5915, with any trailing newlines, parses and loads as exactly those |
| Ecc.LoadsRfc5915Private | source/ecc.c:266-272 | the encoding without the optional public key loads as d with empty x and y |
| Ecc.Rfc5915Octets | source/ecc.c:194-283 | the octets of the full encoding for both curves |
| Ecc.Rfc5915PrivateOctets | source/ecc.c:194-283 | the octets of the encoding without the public key |
| Ecc.Rfc5480Octets | source/ecc.c:194-283 | the octets of the public key encoding |
| Ecc.LoadsRfc5480 | source/ecc.c:194-283 | the public key encoding of section 2 of RFC 5480 loads as exactly x and y with an empty d |
| Ecc.LoadKeyFromDer | source/ecc.c:194-283 | decoding and loading together: the loader's result on the flattened forest of every input that parses, a refusal of every malformed one, and an outcome of its own for lengths that leave the input |
| Ecdsa.PadOfTrim | source/windows/bcrypt_ecc.c:85-87 | padding a trimmed number to its old width gives it back |
| Ecdsa.PaddedIsFixedWidth | source/windows/bcrypt_ecc.c:171-185 | padding gives the fixed-width big-endian form of the same unsigned number |
| Ecdsa.IntegersAreMinimal | source/windows/bcrypt_ecc.c:130-137 | the INTEGER contents written are positive, shortest possible and of the same value, as section 8.3 of ITU-T X.690 asks |
| Ecdsa.EncodeSignatureItems | source/windows/bcrypt_ecc.c:129-138 | the encoding of the two integers and its length, at most 8 more than theirs |
| Ecdsa.SignatureOctets | source/windows/bcrypt_ecc.c:129-138 | the octets of a signature as section 2.2.3 of RFC 3279 has them |
| Ecdsa.SignatureLengths | source/windows/bcrypt_ecc.c:80-83 | 72 and 104 bytes are asked for |
| Ecdsa.SignatureSteps | source/windows/bcrypt_ecc.c:129-138 | with that much room none of the four encoder calls fails |
| Ecdsa.EncodeSignature | source/windows/bcrypt_ecc.c:89-147 | refuses exactly when fewer than the promised signature length is free; otherwise appends exactly the DER form, which is never longer than promised |
| Ecdsa.AppendCoordinate | source/windows/bcrypt_ecc.c:171-185 | appends the padded number, or fails in exactly the two ways the code can |
| Ecdsa.DecodeSignature | source/windows/bcrypt_ecc.c:187-241 | the outcome by the first three entries of every input that parses, a refusal of every malformed one, and an outcome of its own for lengths that leave the input |
| Ecdsa.RawIsFixedWidth | source/windows/bcrypt_ecc.c:187-241 | for every list: a raw signature needs a sequence and two integers, has the curve's width if and only if both integers fit, and is then their two fixed-width forms |
| Ecdsa.AbortsExactly | source/windows/bcrypt_ecc.c:177-182 | for every list: the fatal assertion is reached if and only if it starts with a sequence and two integers of certain lengths |
| Ecdsa.SignatureAborts | source/windows/bcrypt_ecc.c:177-241 | the same for the octets of a signature of any two positive integers |
| Ecdsa.SignatureThatAborts | source/windows/bcrypt_ecc.c:177-241 | an encoded signature that reaches the assertion: integers of 70 and 1 bytes on P-256 |
| Ecdsa.SignatureReadsBack | source/windows/bcrypt_ecc.c:89-241 | for both curves and all non-zero r and s the DER form decodes to exactly r and s |
| Ecdsa.CanonicalSignatureComesBack | source/windows/bcrypt_ecc.c:89-241 | a decoded signature of shortest integers is encoded to the same octets again |
| Ecdsa.SignAndDecode | source/windows/bcrypt_ecc.c:89-241 | both conversions in a row on any buffer with room return the raw signature |
| Ctr.CtrAppend | source/windows/bcrypt_aes.c:804-868 | counter mode of two pieces, the first of whole blocks, is the two outputs in a row |
| Ctr.CtrTwice | source/windows/bcrypt_aes.c:731-754 | counter mode applied twice gives the message back |
| Ctr.CounterOfBlock | source/windows/bcrypt_aes.c:842-861 | the k-th counter block ends in c0 + k and starts with the IV's first 12 bytes |
| Ctr.CounterBlocksAreDistinct | source/windows/bcrypt_aes.c:842-861 | no counter block within range is used twice |
| Bytes.XorIsBitwise | source/windows/bcrypt_aes.c:742 | exclusive-or of two bytes by each of their bits |
| Bytes.XorIsUnique | source/windows/bcrypt_aes.c:742 | no other byte has those bits |
| Bytes.BigEndianDigit | source/windows/bcrypt_aes.c:861 | the octets of a number by division, most significant first |
| Ctr.CounterBlockIs | source/windows/bcrypt_aes.c:842-861 | the number in the last four bytes, by their weights, is k higher, and the first 12 bytes stay |
| Ctr.CounterLastsExactly | source/windows/bcrypt_aes.c:854-859 | the counter lasts for a message if and only if its value after the last block is at most 2^32 - 1 |
| Ctr.CtrIs | source/windows/bcrypt_aes.c:804-868 | byte i of the output has the bits of byte i of the message combined with byte i % 16 of the encrypted counter block i / 16 |
| Ctr.XorCursors | source/windows/bcrypt_aes.c:731-748 | appends the exclusive-or, byte by byte and bit by bit, as long as the shorter operand |
| Ctr.SliceBlocks | source/windows/bcrypt_aes.c:786-797 | the slices are the input's consecutive blocks, all full but perhaps the last |
| Ctr.CtrCipher.EncryptBlock | source/windows/bcrypt_aes.c:814-861 | one block: what is appended, the next counter block, and failure exactly at the last counter value |
| Ctr.CtrCipher.EncryptSlices | source/windows/bcrypt_aes.c:799-868 | all slices: counter mode of what is complete or final, the rest held back |
| Ctr.CtrCipher.Encrypt | source/windows/bcrypt_aes.c:755-875 | what is released and held back (under 16 bytes) after any sequence of calls; the counter ends the run at exactly one point, with output for every counter value used |
| Ctr.CtrCipher.Finalize | source/windows/bcrypt_aes.c:877-886 | the run has emitted counter mode of everything fed; success is reported if and only if the counter lasts |
| Ctr.CtrCipher.Reset | source/windows/bcrypt_aes.c:293-303 | the state at the start of a run, with the stored IV unchanged |
| Ctr.CtrChunks | source/windows/bcrypt_aes.c:755-886 | for every message and split the output is counter mode of section 6.5 of NIST SP 800-38A, stated bit by bit, and the run succeeds if and only if c0 + ceil(length/16) <= 2^32 - 1 |
| Ctr.CtrChunksAgain | source/windows/bcrypt_aes.c:755-886 | a run under any split, and a run of its output under any other split, give the message back if and only if the counter lasts |
| Ctr.CtrAfterReset | source/windows/bcrypt_aes.c:293-303 | the same results after any sequence of calls followed by a reset |
| CbcSpec.CbcEncAppend | source/windows/bcrypt_aes.c:344-362 | chained calls compute CBC of the concatenation |
| CbcSpec.CbcDecOfEnc | source/windows/bcrypt_aes.c:461-480 | CBC decryption inverts encryption |
| CbcSpec.CbcEncExactly | source/windows/bcrypt_aes.c:344-362 | a text is the encryption if and only if each block is the encrypted combination of the message block with the IV or the block before, section 6.2 of NIST SP 800-38A |
| CbcSpec.CbcDecIsCbcDec | source/windows/bcrypt_aes.c:461-480 | each decrypted block is the combination of the decrypted block with the IV or the block before |
| CbcSpec.PadExactly | source/windows/bcrypt_aes.c:422 | a text is the padding of a message if and only if 1 to 16 bytes follow it, each their number, up to a multiple of 16: section 6.3 of RFC 5652 |
| CbcSpec.UnpadExactly | source/windows/bcrypt_aes.c:499 | exactly the correctly padded texts are unpadded, to the message padded |
| CbcSpec.SealExactly | source/windows/bcrypt_aes.c:405-432 | what a run seals is exactly what the two standards give |
| CbcSpec.OpenExactly | source/windows/bcrypt_aes.c:483-509 | what a run opens, and as what, is exactly what the two standards give |
| CbcSpec.OpenOfSeal | source/windows/bcrypt_aes.c:405-509 | opening a sealed message returns it, the empty one included |
| Cbc.CbcCipher.FillInOverflow | source/windows/bcrypt_aes.c:368-403 | held-back bytes and input are split into whole pairs of blocks and total - 32*((total-1)/32) bytes held back |
| Cbc.SealBehind | source/windows/bcrypt_aes.c:418-432 | sealing the held-back rest under the chained value completes the sealed message |
| Cbc.OpenBehind | source/windows/bcrypt_aes.c:495-509 | opening the held-back rest decides and completes the opened message |
| Cbc.CbcCipher.Encrypt | source/windows/bcrypt_aes.c:405-416 | output comes in multiples of 32 bytes and keeps the run in step; refusals change nothing |
| Cbc.CbcCipher.FinalizeEncryption | source/windows/bcrypt_aes.c:418-432 | a run in step has emitted CBC of the whole padded by RFC 5652, stated block by block and byte by byte; the last call seals what was held back likewise |
| Cbc.CbcCipher.Decrypt | source/windows/bcrypt_aes.c:483-493 | the same for decryption |
| Cbc.CbcCipher.FinalizeDecryption | source/windows/bcrypt_aes.c:495-509 | succeeds exactly on ciphertext that decrypts to a text padded by RFC 5652, having emitted the message |
| Cbc.CbcCipher.Reset | source/windows/bcrypt_aes.c:259-291 | the state at the start of a run; the stored IV survives although the working IV is the same buffer |
| Cbc.SealChunks | source/windows/bcrypt_aes.c:368-432 | every message under every split comes out as CBC of the message padded by section 6.3 of RFC 5652 |
| Cbc.OpenChunks | source/windows/bcrypt_aes.c:434-509 | every ciphertext under every split is opened to a message if and only if it decrypts to that message padded by RFC 5652 |
| Cbc.RoundTrip | source/windows/bcrypt_aes.c:368-509 | a run under any split, and a decrypting run of its output under any other split, give the message back |
| Cbc.SealAfterReset | source/windows/bcrypt_aes.c:285-291 | after any mixture of calls and a reset, a run seals as a new cipher with the same key and IV |
| Cbc.OpenAfterReset | source/windows/bcrypt_aes.c:285-291 | likewise for opening |
| CipherCommon.ClearWorkingIv | source/windows/bcrypt_aes.c:259-265 | the stored IV is never wiped; a separate working IV is |
| Gcm.RetainedTwice | source/windows/bcrypt_aes.c:584-601 | what is held back depends on the total length alone: all up to 16 bytes, then 16 and the remainder |
| Gcm.GcmCipher.Update | source/windows/bcrypt_aes.c:558-652 | after any call the chained calls so far hold everything but the retained tail, in non-empty whole blocks |
| Gcm.GcmCipher.Finalize | source/windows/bcrypt_aes.c:654-675 | a run in step ends in exactly one unchained call of 1 to 31 bytes, or none for no input |
| Gcm.GcmCipher.Reset | source/windows/bcrypt_aes.c:305-311 | the state at the start of a run |
| Gcm.GcmChunks | source/windows/bcrypt_aes.c:558-675 | under every split the data of the calls concatenates to the input, chained calls but the last |
| Gcm.FinishedRunIsOneShot | source/windows/bcrypt_aes.c:558-675 | for any provider that works block by block, the calls of a finished run give the output and tag of one call with the whole message |
| Gcm.FinalInverts | source/windows/bcrypt_aes.c:654-675 | for providers whose pieces invert each other, one call undoes one call with the same tag |
| Gcm.GcmRoundTrip | source/windows/bcrypt_aes.c:558-675 | encrypting under any split and decrypting under any split give the message back and the same tag |
| Gcm.GcmAfterReset | source/windows/bcrypt_aes.c:305-311 | the same calls after any mixture of requests and a reset |
| CipherLifecycle.SymmetricCipher.Encrypt | source/symmetric_cipher.c:154-168 | for any provider: refused as too large if and only if length and block size exceed 2147483647, as not good if and only if the flag is down, with nothing changed; otherwise state, flag, output and result are the provider's |
| CipherLifecycle.SymmetricCipher.Decrypt | source/symmetric_cipher.c:170-184 | the same for decryption |
| CipherLifecycle.SymmetricCipher.Finalize | source/symmetric_cipher.c:186-203 | reaches the provider if and only if the flag is up; whatever the provider answers, the flag is down afterwards |
| CipherLifecycle.SymmetricCipher.Reset | source/symmetric_cipher.c:205-212 | always reaches the provider; the flag is up if it succeeds and as the provider leaves it if not; output untouched |
| CipherCommon.LimitIs | source/symmetric_cipher.c:82-87 | an input is passed on if and only if its length and a block make at most 2147483647 |
| CipherLifecycle.Drive | source/symmetric_cipher.c:154-212 | any sequence of calls on one object is a run of the state machine |
| CipherLifecycle.SilentAfterFinalize | source/symmetric_cipher.c:186-212 | in every run, from a finalize that reaches the provider to the next reset nothing reaches it and no state or output changes |
| CipherLifecycle.OversizedIsRefused | source/symmetric_cipher.c:82-87 | input longer than INT_MAX less a block is refused with everything unchanged |
| CipherLifecycle.ProviderSeesOrderlyRequests | source/symmetric_cipher.c:82-212 | whatever callers do, only a reset follows a finalize at the provider, and length plus block size never exceeds INT_MAX there |
| CipherLifecycle.RefusedRequestsLeaveNoTrace | source/symmetric_cipher.c:154-212 | every run equals the run of just the requests that reached the provider |
| CipherLifecycle.OrderlyRequestsAllReach | source/symmetric_cipher.c:154-212 | conversely, every orderly sequence reaches in full a provider that succeeds |
| ModeRuns.CbcRequests | source/symmetric_cipher.c:154-212 | every sequence of requests to the CBC object is a run of the state machine over a provider that is a function, so that what holds of every provider holds of it |
| ModeRuns.CtrRequests | source/symmetric_cipher.c:154-212 | the same for CTR, whose provider state is the input of the run so far |
| ModeRuns.GcmRequests | source/symmetric_cipher.c:154-212 | the same for GCM, whose provider state is the log of calls |
| ModeRuns.KeyWrapRequests | source/symmetric_cipher.c:154-212 | the same for key wrap on OpenSSL |

## Left out

- AES, elliptic-curve arithmetic, hashes and HMAC: the work of libcrypto, CommonCrypto and CNG; block ciphers and providers are arbitrary functions here.
- OpenSSL CBC, CTR and GCM, all of source/darwin, and Windows key wrap: calls into those libraries with no algorithm around them.
- source/hash.c and source/hmac.c: they forward updates to a platform object, refuse use after finalizing, and copy a possibly shortened digest.
- Failing provider primitives, allocation failure, wiping of memory, timing, logging, library initialisation, random keys and IVs, validation of key and IV lengths: primitives succeed in the mode classes; `CipherLifecycle` allows providers that fail.
- Short output buffers in CTR, CBC and GCM: the output can always grow.
- KeyWrapSpec.RfcAgreementIsExactly42Blocks: for step counts below 2^64, the width of the RFC's step value.
- KeyWrap.WrapLoops: block and step numbers are unbounded, where the code keeps them in an int.
- DerDecoder.ReadTlv: what the code goes on to do with a length beyond the input, or with an empty INTEGER or BIT STRING, depends on memory outside the input and on cursor functions that are not part of this model; big-endian hosts are not modelled.
- DerDecoder.Decoder.Push: that full storage is replaced by twice as much is the behaviour of the array list of aws-c-common, which is not part of this model.
- DerDocument.RunReadsBack: for buffers below 2^32 bytes, the width of the encoder's lengths, and for non-empty integers, since the writer looks at the first byte.
- Ecdsa.EncodeSignature: r and s are not zero, as ECDSA guarantees; a zero would be written as an empty integer.
- Ecdsa.SignatureAborts: integers below 2^30 bytes, so that the whole encoding stays within 32-bit lengths.
- Gcm.GcmCipher.Update: the nonce, the additional data and the comparison of the tag are inside the provider; the model is about the calls that reach it.
- The decoder's accessors for a boolean, a length and a count, which return a field of the current entry; key pairs built from hexadecimal coordinates, and their reference counts.
- Derived public keys and the key blobs handed to CNG.
