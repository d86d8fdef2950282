# The byte codecs, checksum, filter and ratchet of hrafn

This project models the self-contained algorithms under `crypto/` and `utils/`:
the table-driven CRC-64, unsigned LEB128, UUIDs, semantic versions, the
multi-address parsers and printer, the Bloom filter and the key ratchet. Each
loop of the source is a method here, proved equal to a function; what the code
is for is then proved about that function, for all inputs.

`dafny verify dfyconfig.toml` checks the whole project.

| file | what it holds |
|---|---|
| `Gf2.dfy` | polynomials over GF(2), division with remainder, the shift register that computes it |
| `Bits.dfy` | 64-bit words and messages as bit sequences |
| `Crc64Table.dfy` | the bit-serial step, the 256 table entries, and why they are right |
| `Crc64.dfy` | the checksum loops, and what the checksum is and detects |
| `Uint.dfy`, `Varint.dfy` | C++ bit operations on naturals; LEB128 |
| `Text.dfy`, `Uuid.dfy`, `SemanticVersion.dfy` | splitting, digits, UUIDs, versions |
| `Multiaddr.dfy` | the tokenizers, the two parsers, the printer |
| `MultiaddrText.dfy`, `MultiaddrPacked.dfy` | the languages the parsers accept; round trips |
| `BloomFilter.dfy` | the filter, its probe sequence, its load |
| `KdfChain.dfy` | the ratchet over whole runs |

How the pieces rest on one another:

* The CRC proof has three floors. A shift register over `seq<bool>` is shown to
  keep the division identity after every bit. The 64-bit register is shown to be
  that one, bit by bit. The table step is shown to be eight clockings of it, from
  the 256 literal entries and linearity. The detection theorems then speak about
  the polynomial register, where they are short.
* Both multi-address parsers are compared with a grammar that says nothing of how
  they work: a list of items and an ending that spell the tokens or the bytes. An
  input parses to a value if and only if the grammar derives it with that meaning.
* The Bloom probe loop is compared with exact arithmetic by a ledger: index, wraps
  around 64 bits, and multiples of the filter size together always account for the
  exact sum. The code departs from the closed form where an update wraps around
  64 bits by something that is not a multiple of the size, and the closed form
  itself foretells where: for every hash, size and number of probes the condition
  is read off the closed form, without running the loop.
* Behaviour that C++ leaves undefined is an outcome of its own (`Undefined`), and
  so is the exception that `std::optional::value` throws (`Thrown`); the inputs
  that lead there are characterised exactly.

Where the code and its comment disagree, the code is followed: the header of
`crypto/crc64.cpp` gives an initial value of all ones (line 8), the code starts
from zero (lines 45 and 121), and the published check value is that of zero.

Three things that hold of the code may surprise a reader and are stated as
theorems: a version is also taken in second-to-last position, and the token after
it is dropped unread (`MultiaddrText.LastTokenDropped`); a packed address may end in
up to ten continuation bytes, which are ignored (`MultiaddrPacked.ParseRawExact`);
probes 0 and 1 of the Bloom filter are always the same bit
(`BloomFilter.FirstTwoProbesCoincide`).

## Model

| member | source | states |
|---|---|---|
| Crc64Table.EntryRight | crypto/crc64.cpp:48-113 | every one of the 256 literal table entries is what eight bit-serial steps make of its index |
| Crc64Table.GeneratorReflected | crypto/crc64.cpp:6 | the reflected constant of the bit-serial step is the published polynomial 0xad93d23594c935a9, coefficient by coefficient |
| Crc64.TableStepRefines | crypto/crc64.cpp:124 | for every register and byte, one table lookup equals clocking the register with the eight bits of the byte |
| Crc64.Crc64OneShot | crypto/crc64.cpp:120-128 | the one-shot loop computes the bit-serial checksum from zero, on every byte string |
| Crc64.Crc64Resume | crypto/crc64.cpp:130-136 | the resumable loop computes the bit-serial checksum from any seed |
| Crc64.ChecksumAppend | crypto/crc64.cpp:130-136 | resuming from the checksum of a prefix gives the checksum of the whole |
| Gf2.FeedDivides | crypto/crc64.cpp:120-128 | the register started from zero divides: quotient times divisor is the message times x^n plus the register, with every coefficient accounted for |
| Gf2.DivisionUnique | crypto/crc64.cpp:120-128 | a message has one quotient and one remainder by a monic divisor |
| Crc64.ChecksumIsRemainder | crypto/crc64.cpp:120-128 | a word is the checksum of a message if and only if it is the remainder of M(x) x^64 by the degree-64 generator |
| Crc64.ChecksumLinear | crypto/crc64.cpp:130-136 | the checksum of a bytewise xor, from the xor of two seeds, is the xor of the checksums |
| Crc64.ChecksumCombine | crypto/crc64.cpp:130-136 | from any seed, the checksum of a concatenation is that of the first part shifted by as many zero bytes as the second has, plus that of the second from zero |
| Crc64.ZeroResidue | crypto/crc64.cpp:123-135 | eight bytes after a message make its checksum vanish if and only if they are its checksum, little-endian |
| Crc64.OneTail | crypto/crc64.cpp:130-136 | for every seed, message and target exactly one tail of eight bytes makes the checksum the target: the sum of the checksum so far and the target clocked back 64 times, little-endian |
| Crc64.UndetectedIffMultiple | crypto/crc64.cpp:130-136 | a change goes unnoticed, from any seed, if and only if the difference polynomial times x^64 leaves remainder zero |
| Crc64.BurstDetected | crypto/crc64.cpp:120-136 | two messages of any length that differ within 64 consecutive bits have different checksums |
| Crc64.BurstOf65Undetected | crypto/crc64.cpp:120-136 | 64 is the limit: a burst of 65 bits, the generator itself, is not detected from any seed |
| Crc64.SeedInjective | crypto/crc64.cpp:130-136 | over any message, different seeds give different checksums |
| Crc64.CheckValue | crypto/test_crc64.cpp:8-11 | the digits 1 to 9 give the published check value 0xe9c6d914c4b8d9ca |
| Varint.EncodeVaruint | utils/varint.h:7-15 | the mask-and-shift loop emits the base-128 digits of the value, all but the last marked |
| Varint.EncodeDigits | utils/varint.h:7-15 | byte i of an encoding is the value's digit i in base 128, marked on every byte but the last |
| Varint.SumAppend | utils/varint.h:23 | each further byte counts its seven payload bits, 7 bits higher than the one before |
| Varint.DecodeVaruint | utils/varint.h:17-31 | the or-and-shift loop yields the base-128 sum modulo 2^64 and the bytes read, nothing on a short marked run, and is undefined exactly when an eleventh byte would be shifted |
| Varint.DecodeEncode | utils/varint.h:7-31 | decoding takes exactly the encoding of any 64-bit value off the front of any bytes |
| Varint.EncodePrefixFree | utils/varint.h:7-15 | no encoding is a prefix of another |
| Varint.DecodeStream | utils/varint.h:7-31 | repeated decoding of concatenated encodings gives the values, the length of each, and leaves any suffix untouched |
| Varint.StreamsUnique | utils/varint.h:7-31 | when the same bytes begin with the encodings of two lists of any lengths, the shorter list begins the longer, and what follows it encodes the rest |
| Varint.EncodeAllInjective | utils/varint.h:7-15 | lists of any lengths with equal concatenated encodings are equal |
| Varint.EncodeLength | utils/varint.h:7-15 | an encoding has at most n bytes if and only if the value has at most n base-128 digits |
| Varint.EncodeAtMostTen | utils/varint.h:7-15 | every 64-bit value takes one to ten bytes |
| Varint.DecodeCanonical | utils/varint.h:7-31 | re-encoding a decoded value is never longer, and gives the bytes read if and only if they were not padded and the tenth byte lost no digit |
| Varint.OrTopBit | utils/varint.h:10 | or-ing the continuation bit marks a byte and changes no payload bit |
| Varint.PayloadAdded | utils/varint.h:23 | or-ing the masked, shifted payload adds it at its place in the sum, modulo 2^64 |
| Text.SplitJoin | utils/multiaddr.h:54-55 | splitting at a separator undoes joining tokens that do not hold it |
| Text.JoinSplit | utils/multiaddr.h:54-55 | the parts of a split hold no separator and join to the text |
| Text.DecimalRoundTrip | utils/semantic_version.cpp:26-29 | reading the printed decimal digits of any natural gives it back |
| Text.DecimalDigits | utils/semantic_version.cpp:27-28 | from the right, printed digit i of n is n / 10^i mod 10, as one of "0123456789" |
| Text.DecimalShortest | utils/semantic_version.cpp:27-28 | no numeral of the same value is shorter than the printed one |
| Text.NoLeadingZero | utils/semantic_version.cpp:27-28 | only zero is printed with a zero in front |
| Text.LeadingZero | utils/semantic_version.cpp:17-19 | a zero in front does not change the value read |
| Text.DigitExact | utils/semantic_version.cpp:17-19 | the digits and their values are those of "0123456789" |
| Text.HexDigitExact | utils/uuid.cpp:39-68 | the digits read are those of "0123456789abcdef" and "0123456789ABCDEF", and those printed the lower-case ones |
| Text.AtoiDecimal | utils/semantic_version.cpp:17-19 | the lenient number parser reads every printed 64-bit number, without overflow |
| Text.AtoiExact | utils/semantic_version.cpp:17-19 | a text is read as a number if and only if it is blanks (codes 9 to 13 and 32), an optional plus sign, digits denoting that number below 2^64, and blanks |
| Uuid.Parse | utils/uuid.cpp:21-48 | the two loops keep the alphanumerics and convert pair by pair, failing on the wrong count or the first bad pair |
| Uuid.ParseRaw | utils/uuid.cpp:50-59 | succeeds exactly on sixteen bytes, and returns them |
| Uuid.ToString | utils/uuid.cpp:61-72 | the loop prints the 8-4-4-4-12 groups of lower-case hex digits |
| Uuid.DashedShape | utils/uuid.cpp:61-72 | 36 characters, dashes at 8, 13, 18 and 23, and at the place of each byte its two lower-case hex digits, the high one first |
| Uuid.ParseExact | utils/uuid.cpp:21-48 | a text parses to a UUID if and only if its alphanumerics are that UUID's 32 hex digits, up to case |
| Uuid.ParseSucceeds | utils/uuid.cpp:29-42 | a text parses if and only if its alphanumerics are exactly 32 hex digits |
| Uuid.ParseToString | utils/uuid.cpp:21-72 | parsing a printed UUID gives it back, for all of them |
| Uuid.ParseAnyCase | utils/uuid.cpp:21-48 | a printed UUID with any of its letters in upper case parses to it |
| Uuid.OthersIgnored | utils/uuid.cpp:23-27 | a character that is no ASCII digit or letter makes no difference, wherever it stands |
| Uuid.LetterRejected | utils/uuid.cpp:39-41 | a letter beyond f, in either case, makes the parse fail, wherever it stands |
| Uuid.ParsePlain | utils/uuid.cpp:29-41 | of texts of digits and letters alone exactly those of 32 hex digits parse |
| Uuid.NormalForm | utils/test_uuid.cpp:19-33 | two texts denote one UUID if and only if they have the same digits up to case; the printed form holds those digits |
| SemanticVersion.Parse | utils/semantic_version.cpp:9-24 | the stepwise parse yields the three numbers, or InvalidFormat |
| SemanticVersion.ParseExact | utils/semantic_version.cpp:9-24 | a text parses to a version if and only if it is three dot-free numerals of its numbers between two dots |
| SemanticVersion.ParseToString | utils/semantic_version.cpp:9-29 | parsing a printed version gives it back, for all triples of 64-bit numbers |
| SemanticVersion.ToStringInjective | utils/semantic_version.cpp:26-29 | different versions print differently |
| SemanticVersion.Example | utils/test_semver.cpp:15-18 | 1, 2 and 3 are major, minor and patch of "1.2.3", both ways |
| SemanticVersion.Refused | utils/test_semver.cpp:7-13 | the empty text and "1.2.b" are refused |
| Multiaddr.StringTokenizer.constructor | utils/multiaddr.h:54-55 | a new tokenizer is in front of all the slash-separated tokens |
| Multiaddr.StringTokenizer.Next | utils/multiaddr.h:57-62 | takes the first of the remaining tokens, or nothing at the end |
| Multiaddr.StringTokenizer.IsDone | utils/multiaddr.h:64-67 | true if and only if at most one token remains |
| Multiaddr.RawTokenizer.ReadUleb128 | utils/multiaddr.h:94-99 | takes one varint off the remaining bytes; the cursor stays inside the buffer and moves only on success |
| Multiaddr.RawTokenizer.ReadBytes | utils/multiaddr.h:101-109 | takes the next bytes if and only if there are as many; the cursor stays inside the buffer and moves only on success |
| Multiaddr.ParseToProtocol | utils/multiaddr.h:138-143 | takes one token and reads a UUID from it; with no token left it throws |
| Multiaddr.ParseRawToProtocol | utils/multiaddr.h:145-153 | takes sixteen bytes if there are sixteen, and is rejected otherwise |
| Multiaddr.Parse | utils/multiaddr.cpp:40-67 | the tokenizer loop computes, on every text, the recursive reading of its tokens that the language theorems are about |
| Multiaddr.ParseRaw | utils/multiaddr.cpp:69-88 | the cursor loop computes, on all bytes, the recursive reading that the language theorems are about, and ends |
| Multiaddr.ToString | utils/multiaddr.cpp:90-102 | the loop prints the join of all tokens of the address, each after a slash |
| Multiaddr.PrintedText | utils/multiaddr.cpp:90-102 | the text is empty for an address of nothing, grows by "/btle/" and the printed UUID with each protocol at the end, and by a slash and the version |
| MultiaddrText.ParseExact | utils/multiaddr.cpp:44-66 | a text parses to a value if and only if its tokens are blanks and "btle"-UUID pairs, then nothing or a version with at most one further token, meaning that value |
| MultiaddrText.ParseThrows | utils/multiaddr.h:141 | parsing throws if and only if well-formed items are followed by a lone "btle"; it is never undefined, so all else is rejected |
| MultiaddrText.ParsePrinted | utils/multiaddr.cpp:40-102 | parsing a printed address gives back every protocol in order and the version, for all lists and versions |
| MultiaddrText.RoundTrip | utils/multiaddr.cpp:40-102 | print and parse is the identity if and only if the identifier is empty |
| MultiaddrText.NormalForm | utils/test_multiaddr.cpp:20-35 | what an accepted text means prints to a text that parses to the same |
| MultiaddrText.LastTokenDropped | utils/multiaddr.cpp:57-60 | after any list of protocols and a version, any one token more is accepted and dropped |
| MultiaddrText.VersionAfter | utils/test_multiaddr.cpp:20-27 | for every UUID and version, "/btle/", the UUID, a slash and the version parse to just these |
| MultiaddrText.VersionBefore | utils/test_multiaddr.cpp:8-12 | a version before the address is rejected, for all of both |
| MultiaddrText.VersionBetween | utils/test_multiaddr.cpp:14-18 | a version between "btle" and the address is rejected, for all of both, also one whose digits make a UUID |
| MultiaddrPacked.ParseRawExact | utils/multiaddr.cpp:69-88 | bytes parse to a value if and only if they are any LEB128 forms of 150 with sixteen bytes each, meaning that value, and then at most ten continuation bytes |
| MultiaddrPacked.ParseRawUndefined | utils/multiaddr.cpp:73 | undefined behaviour is reached if and only if such items are followed by ten continuation bytes and more; nothing throws |
| MultiaddrPacked.ParsePacked | utils/test_multiaddr.cpp:38-53 | packing any address list and parsing gives it back |
| MultiaddrPacked.PackedAddress | utils/multiaddr.cpp:33-34 | the bytes 0x96 0x01 and sixteen more are read as that address, and what follows as before |
| MultiaddrPacked.OtherCode | utils/multiaddr.cpp:76-84 | any other protocol number than 150, and fewer than sixteen bytes after it, is rejected |
| MultiaddrPacked.FormsAgree | utils/test_multiaddr.cpp:38-56 | pack, parse, print, parse is the identity on address lists |
| BloomFilter.HalvesAre | utils/bloom_filter.h:29-37 | the "lower" half is the whole hash, the upper one the hash divided by 2^32 |
| BloomFilter.StaticBloomFilter.constructor | utils/bloom_filter.h:75-76 | a new filter has no bit set and stands for no item |
| BloomFilter.StaticBloomFilter.Put | utils/bloom_filter.h:39-47 | a bit is set afterwards if and only if it was or is one of the item's first k positions; over every run the set bits are the union of the probe sets of the items put |
| BloomFilter.StaticBloomFilter.MightContain | utils/bloom_filter.h:49-61 | true if and only if the bits at all of the item's first k positions are set, hence for every item ever put |
| BloomFilter.ProbesExact | utils/bloom_filter.h:43-46 | the probe set of an item is exactly its first k positions |
| BloomFilter.PositionRecurrence | utils/bloom_filter.h:42-45 | position 0 is the hash modulo the size, and each later one adds so many upper halves to the one before, modulo 2^64 and then the size |
| BloomFilter.AllProbesExact | utils/bloom_filter.h:39-47 | a bit stands for a run of puts if and only if it is a probe of one of its items |
| BloomFilter.OrderIrrelevant | utils/bloom_filter.h:39-47 | runs over the same items, in any order and with any repetition, set the same bits |
| BloomFilter.SameItemsSameBits | utils/bloom_filter.h:39-61 | two filters of one shape that were given the same items are bit for bit equal |
| BloomFilter.FirstTwoProbesCoincide | utils/bloom_filter.h:42-46 | probes 0 and 1 are the same bit, for every hash and size |
| BloomFilter.ProbesCount | utils/bloom_filter.h:42-46 | an item sets at most k - 1 bits when k is at least 2 |
| BloomFilter.LoadBound | utils/bloom_filter.h:39-47 | a filter after n puts has at most n (k - 1) bits set |
| BloomFilter.TriangleIs | utils/bloom_filter.h:45 | the sum of the first i turns is i (i - 1) / 2 |
| BloomFilter.ClosedFormMeans | utils/bloom_filter.h:42-46 | the closed form is (hash + (hash / 2^32) i (i - 1) / 2) mod m |
| BloomFilter.LedgerSum | utils/bloom_filter.h:45 | if every update accounts for what it adds, so does every run of updates |
| BloomFilter.ClosedFormRun | utils/bloom_filter.h:42-46 | for every hash, size and i, the probes up to i are (hash + upper j (j - 1) / 2) mod m if and only if, at every turn before, the 2^64s in the closed form plus the step make a multiple of m |
| BloomFilter.ClosedFormUntilWrap | utils/bloom_filter.h:42-46 | while i (2^32 - 1) is below 2^64: the probes up to i are the closed form if and only if m divides 2^64 or the closed form plus the step stays below 2^64 at every turn before |
| BloomFilter.ClosedFormAlways | utils/bloom_filter.h:42-46 | all probes of all hashes are the closed form if and only if the filter size divides 2^64 |
| BloomFilter.ClosedFormHolds | utils/bloom_filter.h:42-46 | for every hash the probes up to i are the closed form whenever m + (i - 1) (2^32 - 1) is at most 2^64 |
| BloomFilter.ClosedFormFails | utils/bloom_filter.h:42-46 | a filter of three bits and a hash for which the probes are the closed form up to turn 2^32 + 1 and leave it at turn 2^32 + 2 |
| KdfChain.KDFChain.constructor | crypto/kdf_chain.cpp:18-24 | both keys are copies of the seed, of any length, and no key has been handed out |
| KdfChain.KDFChain.NextKey | crypto/kdf_chain.cpp:26-35 | the first 32 bytes of the chain key and the key returned are the two halves of the extract of the chain key and 0x13 0x37; the other bytes and the root key stay, and the counter counts modulo 2^64; so call i returns the i-th key of the seed |
| KdfChain.ChainContinues | crypto/kdf_chain.cpp:26-35 | a chain started from a later state runs through the same later states and keys |
| KdfChain.TailKept | crypto/kdf_chain.cpp:31 | in every reachable state the chain bytes from 32 onward are the seed's |
| KdfChain.MeetingChains | crypto/kdf_chain.cpp:26-35 | chains that are ever in one state, at whatever positions, hand out the same keys from there on |
| KdfChain.RepeatedChain | crypto/kdf_chain.cpp:26-35 | a chain that meets its own past repeats its keys for ever, with that period |
| KdfChain.ChainsApart | crypto/kdf_chain.cpp:31 | chains whose seeds differ from byte 32 onward are never in the same state, at whatever positions |
| KdfChain.ChainRepeats | crypto/kdf_chain.cpp:31 | every seed is in one state twice within its first 2^256 calls |
| KdfChain.KeysRecur | crypto/kdf_chain.cpp:26-35 | the keys of every seed recur for ever, with start and period within 2^256 calls |
| KdfChain.CatchUp | crypto/kdf_chain.cpp:26-35 | of two parties with one seed, the one behind has handed out a prefix of the other's keys, and from its state the missing calls give the missing keys and the state of the other |
| KdfChain.CountersAgree | crypto/kdf_chain.h:12 | counters agree if and only if the parties are in step, unless one is 2^64 calls ahead; in step, they hold the same state and keys |

## Left out

- `btle/`: wrappers over the CoreBluetooth framework.
- `src/hrafn.cpp` and `net/net.h`: coroutine and stream I/O.
- `crypto/crypto.cpp`: calls into libsodium and base64. Inside the ratchet, HKDF-extract is an arbitrary function with a 64-byte result.
- `calculate_bloom_filter_config` and `estimated_n`: floating point. The filter size and the number of probes are constructor parameters; the source never initialises `k_` (utils/bloom_filter.h:76).
- `std::hash`: an arbitrary function to 64 bits; `size_t` is taken to have 64 bits throughout.
- A Bloom filter of no bits: `index % 0` is undefined in the source, so the constructor asks for at least one.
- `MultiaddrRawTokenizer::read`, `uint32`, `uint64` and `varuint32`: unused by the parsers.
- The converse round trip of versions: `absl::SimpleAtoi` also accepts white space, a plus sign and leading zeros, so many texts parse to one version.
- `SemanticVersion` comparison: the defaulted lexicographic order would only add easy members.
- Short seeds: the next key asks for a seed of at least 32 bytes; with a shorter one the source writes past the end of the vector.
- The parser tables and the virtual `Protocol` interface: each table has one entry, so looking one up is a comparison with "btle" or with 150, and an address is the only protocol.
- Uuid.Parse: characters are classified as ASCII; `std::isalnum` on other locales or on negative `char` values is not modelled.
- Ownership (`unique_ptr`), spans that alias a caller's buffer, the null string_view (absl then yields no tokens), random UUIDs, formatting and protobuf.
- The table is laid out as sixteen rows of sixteen; the entries and their order are those of the source.
