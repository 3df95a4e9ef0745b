# molewire, verified

molewire is the firmware of a USB WireGuard dongle. This project models the parts of it that
carry state, arithmetic or a protocol, in Dafny, and proves what those parts are for:

- **Crypto arithmetic.** `Poly1305*` (26-bit limbs against the integer definition), `Field25519`,
  `Ops25519`, `Ladder25519`, `X25519` (32-bit limbs, delayed-swap ladder, inversion chain),
  `ChaCha20`, `Aead`, `Blake2s`, and `Primitives`, which puts them under the handshake.
- **WireGuard sessions.** `Replay` (the sliding window), `Session` (one peer as a state machine),
  `SessionSafety` (what every run keeps), `SessionDevice` (the code that updates keypairs in place),
  `Handshake` (KDF chain and the four handshake functions), `Base64` (keys as text).
- **Exit-mode NAT.** `Checksum`, `Packet` (what a translation does to a packet), `Napt` (the mapping
  table over runs), `NaptDevice` (the in-place code), `Egress` (the checksum restorers behind it).
- **Packet capture.** `Pcap` (the wrapping ring of variable-length records).
- **Wi-Fi.** `WifiScan` (the top-24 table), `WifiPick` (candidate order), `Profiles` (the
  most-recently-used list), `WifiConn` (the timed manager).
- **Serial bridge.** `Telnet` (escaping, parser, COM-PORT replies).
- **Shared.** `Bytes`, `Octets`, `Bits`, `Words`, `Congruence`.

Code that works in place is modelled by classes and arrays and proved equal to functions on values;
the theorems are about those functions and about whole runs of them. Words are integers with their
width written out, and bitwise operators are defined bit by bit (`Bits`), so no bit-vector theory is
involved. Calls into lwIP, the radio, the clock and the random source are parameters.

## Results that are exact conditions

Some promises hold of the code only under a condition. Each condition is proved to be exact, in both
directions; where a failing input is not plain from the condition, a lemma gives one.

- A translated packet whose checksums were zero or valid keeps them so if and only if its MSS edit is
  harmless (an even offset, or two octets that move by amounts that agree modulo 257) or one of the two
  or three updates of the incoming TCP checksum lands on zero, after which the code leaves it alone
  (`Packet.TranslateKeepsChecksums`, with `Packet.LandsOnZero` computed from the packet that comes in, and
  `Checksum.VanishesExactly` for when one update does). After egress all checksums are valid under exactly
  the same condition (`Egress.TranslatedThenRestored`). `MssExample.OddOffsetExample` is a valid packet
  that leaves with the wrong checksum 0x28E6.
- The replay window decides as specified while the counter distance, cut to 32 bits, leads to the same
  branch; `Replay.DistortedExactly` says exactly when it still does otherwise, the last counter 2^64 - 1
  included, and `Replay.FarJumpAdmitsReplay` shows a counter accepted twice. Slots, indices, nonces and
  key confirmation do not depend on this: they are proved from fresh indices and fresh keys alone.
- The scan for a used session index looks at all peers but keeps the last verdict, so it is exact for
  one peer and for no larger number (`SessionDevice.ScanExactIff`); the firmware configures one.
- A counter of a responder session is accepted a second time only if one of the two packets promoted the
  session (`SessionSafety.AcceptedAtMostOnce`), and the promoting packet of every parked session is in
  fact accepted once more while the session lives (`SessionSafety.PromotionAdmitsRepeat`).
- A COM-PORT reply parses back if and only if its command is not 155, whose reply byte is an unescaped
  IAC (`Telnet.AckParsesBack`); the payload is complete exactly when what precedes its last byte
  escapes to at most 16 bytes (`Telnet.TakenExactly`).
- At every moment the client has read exactly the line's bytes, if and only if no answer so far
  acknowledges command 155 with a payload other than IACs and then one other byte
  (`Telnet.ClientSeesTheLine`). `Telnet.GarbledExample` is a command after which the client reads a byte
  that the line never sent.
- The scan table keeps its meaning throughout a stream of reports if and only if every report is
  recognised properly (`WifiScan.RunFaithfulExactly`). That holds in every stream of reports whose name
  holds no NUL and is followed by one, or whose 32 octets all count with a NUL among or behind them
  (`WifiScan.RunFaithful`), and no other visible report can follow every such stream without harm
  (`WifiScan.RecognisableExactly`). For a 32-octet name the octet
  behind it lies outside the name field; `WifiScan.FullNameTwice` is such a network, which heard twice
  enters the table twice.
- The base64 decoder accounts for every octet it writes except on strings made of letters for exactly
  the buffer, one more letter and three padding characters (`Base64.OverrunExactly`;
  `Base64.OverrunExample` is the shortest of them).
- Section 5 of RFC 7748 drops bit 255 of the u-coordinate; the code keeps it, and the two decode the
  same field element if and only if it is clear (`X25519.HighBitKept`).
- Every unseen Wi-Fi profile gets its turn within `count` cycles if and only if those cycles do not cross
  the wrap of the 8-bit counter or `count` divides 256 (`WifiPick.TurnsExactly`); `WifiPick.WrapSkipsATurn`
  is an instance of the failure, and twice as many cycles are always enough.

## Model
| member | source | states |
|---|---|---|
| `Pcap.ParseStream` | src/pcap.c:51-83 | Any sequence of captured frames, written as records, parses back to exactly the packets a reader should see |
| `Pcap.Replay` | src/pcap.c:51-112 | After any sequence of captures, clears, enables, freezes and resumes the two frozen spans parse to a suffix of everything captured since the last clear, complete while it fits, ending with the newest, and never below RING_SIZE - 542 bytes once something was dropped |
| `Pcap.DumpIsFaithful` | src/pcap.c:99-112 | The ring invariant alone makes the frozen spans a faithful dump |
| `Pcap.DropOldest` | src/pcap.c:28-49 | Skipping the length in the oldest header removes exactly the oldest frame and keeps the shape of the ring |
| `Pcap.OldestLength` | src/pcap.c:28-33 | The length read at the tail is that of the oldest frame still held |
| `Pcap.WrapAround` | src/pcap.c:58-69 | Wrapping keeps the newest span as the top one and everything it means |
| `Pcap.WriteWrapped` | src/pcap.c:70-82 | A record written below the tail extends the lower span by that frame and leaves the upper one |
| `Pcap.WriteLinear` | src/pcap.c:70-82 | A record written before the first wrap extends the log by that frame |
| `Pcap.Ring.Capture` | src/pcap.c:51-83 | Capture keeps the ring invariant and logs the frame exactly when enabled, not paused and nonempty |
| `Pcap.Ring.Evict` | src/pcap.c:35-49 | Eviction drops whole oldest records until the range is free, never the newest span |
| `Pcap.Ring.Freeze` | src/pcap.c:99-112 | Freezing pauses and returns a faithful dump |
| `Checksum.FoldIsResidue` | src/eth_csum.c:20-25 | Folding carries gives the residue modulo 0xFFFF, zero only for zero |
| `Checksum.AdjustedIsCongruent` | src/napt.c:45-58 | The incremental update is equation 3 in section 3 of RFC 1624: the new complement accounts for the change modulo 0xFFFF |
| `Checksum.FreshChecksum` | src/eth_csum.c:46-50 | A complement of the folded sum, or its alternate form, makes the region sum to all ones |
| `Checksum.VanishesExactly` | src/napt.c:45-67 | An update turns a present checksum into zero exactly when the new words exceed the old ones by its value modulo 0xFFFF, with one degenerate exception |
| `Packet.TranslateBalanced` | src/napt.c:203-222 | After all field rewrites each nonzero checksum is off by exactly the misjudged MSS and nothing else, even when a middle adjustment lands on zero |
| `Packet.TranslateKeepsChecksums` | src/napt.c:203-265 | A complete packet with zero-or-valid checksums keeps them after translation if and only if the MSS edit is harmless or one of the updates of the incoming TCP checksum lands on zero |
| `Packet.TranslateField` | src/napt.c:203-265 | The checksum field a TCP packet leaves with, from the octets that come in: the address, port and MSS updates in turn, none once it is zero |
| `Packet.HarmlessIff` | src/napt.c:110-143 | The MSS edit is invisible modulo 0xFFFF exactly when its offset is even or its octets move alike modulo 257 |
| `MssExample.OddOffsetExample` | src/napt.c:110-143 | A valid SYN whose MSS value sits at an odd offset; translated to 192.168.1.50 and port 60000 with a clamp of 1300 it carries the checksum 0x28E6, which is wrong |
| `Packet.TranslateFields` | src/napt.c:203-222 | Translation sets the address and the port or echo identifier as asked and changes no octet beyond those, the checksums and the clamped MSS |
| `Packet.TranslateKeepsShape` | src/napt.c:89-108 | A translated packet parses to the same view |
| `NaptDevice.CsumAdjust` | src/napt.c:45-58 | The word loop with end-around carry computes the specified update in place |
| `NaptDevice.CsumAdjustUdp` | src/napt.c:69-76 | The UDP variant skips an absent checksum and never leaves zero |
| `NaptDevice.FindMssOption` | src/napt.c:117-142 | The option walk finds the first well-formed MSS option or stops where the packet says so |
| `NaptDevice.ClampMssInPlace` | src/napt.c:110-143 | The clamp lowers the MSS of a SYN only and updates the checksum in place |
| `NaptDevice.TranslateInPlace` | src/napt.c:203-222 | The rewriting code equals the value-level translation |
| `NaptDevice.Device.FindSlot` | src/napt.c:173-190 | One pass finds the live match, or else the first dead slot |
| `NaptDevice.Device.OutboundInPlace` | src/napt.c:162-226 | Outbound equals its value-level step: verdict, packet, table and drop count |
| `NaptDevice.Device.InboundInPlace` | src/napt.c:228-269 | Inbound equals its value-level step and leaves foreign packets alone |
| `Napt.StepKeepsInv` | src/napt.c:162-269 | Under a non-decreasing clock every call keeps: no two live entries share protocol, inner address and inner port |
| `Napt.RunKeepsInv` | src/napt.c:162-269 | The table invariant holds after every run under a non-decreasing clock |
| `Napt.NoSharedEndpoint` | src/napt.c:162-269 | From a reset on, in every run, no two live entries share protocol, inner address and inner port |
| `Napt.StepKeepsLiveSlot` | src/napt.c:173-201 | A live slot is never reassigned by any call |
| `Napt.RunKeepsMapping` | src/napt.c:162-269 | Over any run a slot that stays live keeps its inner endpoint |
| `Napt.ReplyReachesOrigin` | src/napt.c:228-269 | After an outbound packet and any run that keeps its mapping alive, a reply to the external address and NAT port is rewritten to exactly the original inner address and port or echo identifier |
| `Napt.PromptIsKeptAlive` | src/napt.c:30-43 | A reply within the shortest timeout of the protocol always finds the mapping alive |
| `Napt.PortFollowsEndpoint` | src/napt.c:162-201 | One inner endpoint keeps one NAT port (REQ-1, section 4.1 of RFC 4787) |
| `Napt.NatPortInjective` | src/napt.c:191-201 | Distinct slots have distinct NAT ports |
| `Napt.OnlyMatch` | src/napt.c:173-190 | A live entry for an endpoint is the one the search finds |
| `Napt.ResetHoldsInv` | src/napt.c:24-26 | An empty table satisfies the invariant |
| `Egress.RestoreMakesValid` | src/eth_csum.c:27-79 | A complete packet leaves with every checksum valid if and only if each was zero or valid; a UDP checksum is then never zero, and no other octet changes |
| `Egress.TranslatedThenRestored` | src/eth_csum.c:27-79 | Translation followed by the egress hop leaves all checksums valid if and only if the MSS edit is harmless or an update of the incoming TCP checksum lands on zero, and the new address and key are in place |
| `Egress.CsumAdd` | src/eth_csum.c:8-18 | The accumulation loop adds the big-endian words, an odd last octet padded, without overflowing 32 bits |
| `Egress.CsumFinish` | src/eth_csum.c:20-25 | The folding loop returns the complement of the folded sum |
| `Egress.EthCsumRestore` | src/eth_csum.c:27-79 | The frame code restores exactly the absent checksums of a well-formed IPv4 frame and nothing else, unless the guard takes a longer datagram for one inside the frame |
| `Egress.FixChecksums` | wireguard/wireguardif.c:106-148 | The tunnel-side copy does the same to a bare packet |
| `Replay.CheckRefines` | wireguard/wireguard.c:320-365 | The 32-bit bitmap refines the set of accepted counters: accepted exactly when above the maximum, or within 32 of it and unseen |
| `Replay.DistortedExactly` | wireguard/wireguard.c:334-356 | When truncation to 32 bits changes the branch, or the counter is 2^64 - 1, the step is right if and only if the stated condition on window and counter holds |
| `Replay.SessionRefines` | wireguard/wireguard.c:320-365 | Over a whole session the window represents exactly the accepted counters |
| `Replay.SessionVerdicts` | wireguard/wireguard.c:320-365 | Every packet of a session gets the specified verdict, so no counter is accepted twice |
| `Replay.FarJumpAdmitsReplay` | wireguard/wireguard.c:334-356 | Counters 0, 100, 2^32 + 3 and 0 again are all accepted |
| `SessionSafety.StepSafe` | wireguard/wireguard.c:448-516 | Every handshake, data, output, timer and connect step keeps the invariant of slots, indices, counters and trace, given fresh indices and keys; the replay windows too, given that no message that reaches them has a counter truncation confuses |
| `SessionSafety.RunSafe` | wireguard/wireguardif.c:163-453 | The invariant, with or without the replay windows, holds after every run from a fresh peer |
| `SessionSafety.NonceNeverReused` | wireguard/wireguardif.c:163-270 | No sending key and counter pair encrypts twice in any run with fresh indices and keys, whatever counters the network sends |
| `SessionSafety.UnconfirmedNeverEncrypts` | wireguard/wireguardif.c:163-190 | A responder key encrypts nothing before an authentic packet has confirmed it (section 5.4.6 of the WireGuard paper) |
| `SessionSafety.AcceptedAtMostOnce` | wireguard/wireguardif.c:334-453 | The same counter of the same session is delivered twice only for responder sessions, and only when one of the two packets promoted it |
| `SessionSafety.LookupUnambiguous` | wireguard/wireguard.c:367-376 | Valid keypairs and a pending initiation have distinct nonzero indices, no session sits in two slots, and a receiver index selects at most one |
| `SessionSafety.DataSafe` | wireguard/wireguardif.c:334-453 | A data message keeps the invariant through promotion, stamping and the replay check |
| `SessionSafety.OutputSafe` | wireguard/wireguardif.c:163-270 | Sending keeps the invariant and bumps the counter before it can be used again |
| `SessionSafety.TimerSafe` | wireguard/wireguardif.c:919-964 | Expiry, keepalive and rekey of one timer tick keep the invariant, whichever of the two buffers it asks for it gets |
| `SessionSafety.PromotingPacketDeliveredTwice` | wireguard/wireguardif.c:378-392 | In a whole run: an initiation, the packet that confirms the session, and that packet again, for every key and every counter below 2^32 - 1 |
| `SessionSafety.PromotionAdmitsRepeat` | wireguard/wireguardif.c:378-392 | For every parked session the packet that promotes it is accepted once more, at any later time at which the session still lives |
| `SessionDevice.GenerateUniqueIndex` | wireguard/wireguard.c:378-403 | The draw loop returns the first nonzero draw its scan reports unused |
| `SessionDevice.ScanExactIff` | wireguard/wireguard.c:378-403 | That scan is exact for one peer and for no larger number |
| `SessionDevice.PeerDevice.CheckReplay` | wireguard/wireguard.c:320-365 | The in-place window update equals the checked function |
| `SessionDevice.PeerDevice.KeypairUpdateInPlace` | wireguard/wireguard.c:453-460 | Promotion moves next to current and current to previous |
| `SessionDevice.PeerDevice.AddKeypair` | wireguard/wireguard.c:462-475 | A new keypair goes to current or is parked, by role, and the displaced one is destroyed or kept as the code says |
| `SessionDevice.PeerDevice.StartSessionInPlace` | wireguard/wireguard.c:477-516 | Starting a session installs the keypair and forgets the handshake |
| `SessionDevice.PeerDevice.OutputToPeer` | wireguard/wireguardif.c:163-270 | The output path equals its value-level step, observations included |
| `SessionDevice.PeerDevice.ProcessData` | wireguard/wireguardif.c:334-453 | The receive path equals its value-level step, observations included |
| `SessionDevice.PeerDevice.TimerInPlace` | wireguard/wireguardif.c:919-964 | The timer equals its value-level step |
| `SessionDevice.PeerDevice.ProcessInitiation` | wireguard/wireguardif.c:481-501 | A valid initiation parks a session exactly when the response could be built |
| `SessionDevice.PeerDevice.ProcessResponse` | wireguard/wireguardif.c:290-304 | A response that answers the initiation in flight starts the session and sends a keepalive; any other is ignored |
| `SessionDevice.Drive` | wireguard/wireguardif.c:619-695 | The code driven by any inputs reaches exactly the state and trace of the run the safety results are about |
| `Handshake.HmacInto` | wireguard/wireguard.c:210-255 | HMAC with digest and text in the same buffer computes HMAC of RFC 2104 |
| `Handshake.Kdf1Into` | wireguard/wireguard.c:257-271 | The one-output KDF is right when its output overwrites the chaining key |
| `Handshake.Kdf2Into` | wireguard/wireguard.c:273-292 | The two-output KDF is right when its first output overwrites the chaining key |
| `Handshake.Kdf3Into` | wireguard/wireguard.c:294-318 | The three-output KDF is right when its first output overwrites the chaining key |
| `Handshake.InitiationAgrees` | wireguard/wireguard.c:763-850 | An honest initiation is accepted, recovers the timestamp and leaves both sides with the same chaining key and hash |
| `Handshake.ResponseAgrees` | wireguard/wireguard.c:852-939 | An honest response is accepted and leaves both sides with the same chaining key and paired indices |
| `Handshake.HonestExchange` | wireguard/wireguard.c:551-740 | For all keys, psk, timestamps and indices the exchange succeeds, transport keys match crosswise and indices are paired |
| `Primitives.StackSound` | wireguard/crypto.h:8-28 | With this repository's BLAKE2s, AEAD and X25519 everything the handshake assumes holds, commutation of the curve aside |
| `Primitives.StackExchange` | wireguard/wireguard.c:477-516 | The honest exchange on those primitives, with nothing else left abstract |
| `Poly1305Field.ColumnsAreProduct` | wireguard/crypto/refc/poly1305-donna-32.h:107-112 | The five 64-bit columns are the product of accumulator and key modulo 2^130 - 5 |
| `Poly1305Field.Carry` | wireguard/crypto/refc/poly1305-donna-32.h:114-121 | The carry chain preserves the value modulo 2^130 - 5, no 64-bit sum or 32-bit carry overflows, and limbs end below 2^26, the second below 2^26 + 64 |
| `Poly1305.BlockLimbsVal` | wireguard/crypto/refc/poly1305-donna-32.h:100-105 | The overlapping unaligned loads split a block into limbs of the same value |
| `Poly1305.BlockStep` | wireguard/crypto/refc/poly1305-donna-32.h:99-125 | One block takes the accumulator h to (h + block) * r modulo 2^130 - 5 and keeps the limb bounds |
| `Poly1305.KeyLimbsVal` | wireguard/crypto/refc/poly1305-donna-32.h:49-54 | The masked limbs of the key are the clamped key of section 2.5 of RFC 8439 |
| `Poly1305Tag.FullCarry` | wireguard/crypto/refc/poly1305-donna-32.h:152-164 | The second carry pass leaves every limb below 2^26 and the value unchanged modulo 2^130 - 5 |
| `Poly1305Tag.Canonical` | wireguard/crypto/refc/poly1305-donna-32.h:166-185 | The branch-free selection yields the least residue |
| `Poly1305Tag.FinishWords` | wireguard/crypto/refc/poly1305-donna-32.h:187-197 | Packing and adding the pad give the residue plus pad modulo 2^128 |
| `Poly1305Stream.PadBlock` | wireguard/crypto/refc/poly1305-donna-32.h:142-150 | The padded last block has the value of the partial block with a one octet appended |
| `Poly1305Stream.StandsForBlock` | wireguard/crypto/refc/poly1305-donna-32.h:73-132 | Limbs that stand for a message stand for the longer one after a block |
| `Poly1305Stream.Authenticator.Blocks` | wireguard/crypto/refc/poly1305-donna-32.h:73-132 | Whole blocks move the accumulator along with the message |
| `Poly1305Stream.Authenticator.Update` | wireguard/crypto/refc/poly1305-donna.c:6-41 | Buffering across calls keeps the accumulator at the last whole block of everything received |
| `Poly1305Stream.Authenticator.Finish` | wireguard/crypto/refc/poly1305-donna-32.h:134-219 | The tag is the specified one and the state is wiped |
| `Poly1305Stream.Authenticate` | wireguard/crypto/refc/poly1305-donna.c:6-41 | For every key, message and cutting into updates the tag is the integer specification of section 2.5 of RFC 8439 |
| `Field25519.Propagate` | wireguard/crypto/refc/x25519.c:84-93 | Everything from 2^255 up is folded in times 19, in place, without a carry out |
| `Ops25519.Add` | wireguard/crypto/refc/x25519.c:95-102 | Addition modulo 2^255 - 19 of any 256-bit operands, result below 2^255 + 2^32, output aliasing allowed |
| `Ops25519.Sub` | wireguard/crypto/refc/x25519.c:104-112 | Subtraction likewise, for any minuend and a subtrahend below 2^255 + 2^32 |
| `Ops25519.MulRow` | wireguard/crypto/refc/x25519.c:138-145 | One row of the schoolbook product, carries included |
| `Ops25519.Mul` | wireguard/crypto/refc/x25519.c:132-153 | Multiplication modulo 2^255 - 19 of any operands, by one limb or eight, output aliasing allowed |
| `Ops25519.Canon` | wireguard/crypto/refc/x25519.c:167-201 | The unique least residue, and all ones exactly when it is zero |
| `Ladder25519.LadderPart1` | wireguard/crypto/refc/x25519.c:205-220 | The first half leaves AA, E, E*a24 + AA, DA + CB and DA - CB in the five slots |
| `Ladder25519.LadderPart2` | wireguard/crypto/refc/x25519.c:221-229 | The second half completes both points from them |
| `Ladder25519.LadderStep` | wireguard/crypto/refc/x25519.c:205-229 | Both halves together are the step of section 5 of RFC 7748 |
| `Ladder25519.CondSwap` | wireguard/crypto/refc/x25519.c:159-165 | Masked exchange swaps two elements or neither |
| `X25519.LoopBit` | wireguard/crypto/refc/x25519.c:244-254 | The bit the loop extracts is that bit of the decoded, clamped scalar of section 5 of RFC 7748 |
| `X25519.Core` | wireguard/crypto/refc/x25519.c:231-262 | 256 steps with delayed swaps leave exactly what the branching ladder computes |
| `X25519.ChainRow` | wireguard/crypto/refc/x25519.c:274-288 | Each of the 13 table rows takes the exponents of the slots to the next ones and reads only slots already set |
| `X25519.Invert` | wireguard/crypto/refc/x25519.c:289-297 | The table raises z2 to 2^255 - 21 for every z2 although slots 2, 3 and 4 are reused |
| `X25519.PowAdd` | wireguard/crypto/refc/x25519.c:289-297 | Powers multiply by adding exponents, for all exponents |
| `X25519.LimbsOfOctets` | wireguard/crypto/refc/x25519.c:114-130 | Limbs and octets stand for the same number |
| `X25519.Multiply` | wireguard/crypto/refc/x25519.c:264-321 | Output octets are the least residue of x2 * z2^(p-2) for every scalar and coordinate, and -1 is returned exactly for a clamped zero result; output may alias an input |
| `X25519.HighBitKept` | wireguard/crypto/refc/x25519.c:231-242 | Keeping bit 255 of the coordinate changes the field element exactly when it is set |
| `ChaCha20.QuarterRound` | wireguard/crypto/refc/chacha20.c:51-66 | The in-place quarter round is that of section 2.1 of RFC 8439, rotations included |
| `ChaCha20.InnerBlock` | wireguard/crypto/refc/chacha20.c:68-77 | Columns, then diagonals |
| `ChaCha20.RoundsInjective` | wireguard/crypto/refc/chacha20.c:79-90 | The rounds lose nothing: distinct states stay distinct through any number of them |
| `ChaCha20.Cipher.BlockOut` | wireguard/crypto/refc/chacha20.c:102-115 | One block of key stream as in section 2.3 of RFC 8439 |
| `ChaCha20.Cipher.Apply` | wireguard/crypto/refc/chacha20.c:117-140 | Any length, in place or not: the message combined with the key stream, nothing written beyond it, the block counter advanced by the blocks used |
| `ChaCha20.CryptTwice` | wireguard/crypto/refc/chacha20.c:117-140 | Encrypting twice under the same state gives the message back |
| `Aead.OpenExactly` | wireguard/crypto/refc/chacha20poly1305.c:67-162 | Decryption accepts exactly what encryption produces and returns what was encrypted |
| `Aead.GenerateKey` | wireguard/crypto/refc/chacha20poly1305.c:49-64 | The one-time key is half of block zero and the cipher is left at block one |
| `Aead.Digest` | wireguard/crypto/refc/chacha20poly1305.c:81-100 | The six updates authenticate exactly the data of section 2.8 of RFC 8439 |
| `Aead.Equal` | wireguard/crypto.c:14-23 | The comparison that does not stop early is equality |
| `Aead.Encrypt` | wireguard/crypto/refc/chacha20poly1305.c:67-105 | Ciphertext and tag equal the construction of section 2.8 of RFC 8439 with WireGuard's nonce, in place or not |
| `Aead.Decrypt` | wireguard/crypto/refc/chacha20poly1305.c:108-162 | Succeeds exactly when the tag matches, writes the plaintext then and nothing otherwise |
| `Aead.RoundTrip` | wireguard/crypto/refc/chacha20poly1305.c:67-162 | A packet sealed in its own buffer and opened there again is as it was, and nothing behind the tag is touched |
| `Blake2s.Hasher.Compress` | wireguard/crypto/refc/blake2s.c:31-73 | The compression function of section 3.2 of RFC 7693, in place |
| `Blake2s.Hasher.CountUp` | wireguard/crypto/refc/blake2s.c:113-115 | The two-word counter is the byte count modulo 2^64 |
| `Blake2s.Hasher.Init` | wireguard/crypto/refc/blake2s.c:78-103 | Refuses illegal lengths untouched; otherwise a key waits as one whole zero-padded block |
| `Blake2s.Hasher.Update` | wireguard/crypto/refc/blake2s.c:106-121 | Any number of octets, a full block compressed only once more input follows |
| `Blake2s.Hasher.Final` | wireguard/crypto/refc/blake2s.c:125-142 | The last block, full, partial or empty, is counted, flagged and compressed once |
| `Blake2s.ChainedExtends` | wireguard/crypto/refc/blake2s.c:106-121 | Blocks already compressed do not depend on what follows |
| `Blake2s.Hash` | wireguard/crypto/refc/blake2s.c:145-156 | For every key and every cutting into updates the digest is that of section 3.3 of RFC 7693 on the concatenation |
| `WifiScan.StepFaithful` | src/wifi_scan.c:26-62 | One report keeps the table's meaning (names distinct, each entry the strongest report of its name, nothing left out stronger than an entry) if and only if it is recognised properly |
| `WifiScan.RunFaithfulExactly` | src/wifi_scan.c:26-102 | Throughout any stream of starts, passes and reports the table keeps that meaning if and only if every visible report is recognised properly |
| `WifiScan.RunFaithful` | src/wifi_scan.c:26-102 | It does after any stream of recognisable reports over any number of accumulating passes, even for networks evicted and seen again |
| `WifiScan.RecognisableExactly` | src/wifi_scan.c:36-44 | A visible report can follow every stream of recognisable ones without harm exactly when it is recognisable: followed by a NUL and free of them, or of full length with a NUL among or behind its octets |
| `WifiScan.RecognisableIsProper` | src/wifi_scan.c:36-44 | In every table the code can build, a recognisable report is recognised properly |
| `WifiScan.HeardTwice` | src/wifi_scan.c:36-44 | One network heard twice keeps the table right exactly when a NUL ends its name or lies in it |
| `WifiScan.FullNameTwice` | src/wifi_scan.c:36-44 | 32 letters followed by another octet, heard twice, enter the table twice |
| `WifiScan.CleanIsProper` | src/wifi_scan.c:36-44 | A report whose name holds no NUL and is followed by one is recognised properly whatever the table holds |
| `WifiScan.MatchesExactly` | src/wifi_scan.c:36-38 | For every report the comparison holds exactly when both texts are the same and terminated and the entry has a NUL where the report's name ends |
| `WifiScan.NameMatchesExactly` | src/wifi_scan.c:36-38 | A name without NUL is recognised exactly when it is the same and the octet behind it is NUL |
| `WifiScan.StepUnrecognised` | src/wifi_scan.c:46-62 | A kept name that is not recognised spoils the table unless the table is full and the report is too weak to enter or displaces its own entry |
| `WifiScan.ReceiveMeans` | src/wifi_scan.c:26-62 | On stored buffers with stale octets the callback means a step at the recognised entry, which always has that name |
| `WifiScan.Fill` | src/wifi_scan.c:14-21 | Overwriting an entry over stale octets stores exactly the reported network, its name up to the first NUL |
| `WifiScan.Table.Report` | src/wifi_scan.c:26-62 | The callback in place equals the step on the stored table, for every report |
| `WifiScan.Table.Lookup` | src/wifi_scan.c:36-44 | The dedupe loop finds the first entry the comparison takes the report for |
| `WifiScan.Table.FindWeakest` | src/wifi_scan.c:52-57 | The loop finds the first weakest entry |
| `WifiScan.Drive` | src/wifi_scan.c:26-102 | The code driven by any stream of events ends in the state of the run the results are about |
| `WifiPick.Order` | src/wifi_pick.c:5-41 | The order is the ranking of exactly the seen, not rejected profiles, with the bonus of the active one and ties in list order, then at most one unseen profile |
| `WifiPick.RankAll` | src/wifi_pick.c:13-29 | The insertion loop ranks exactly the seen, not rejected profiles |
| `WifiPick.InsertInPlace` | src/wifi_pick.c:19-28 | The shifting loop inserts behind everything at least as strong |
| `WifiPick.InsertRanked` | src/wifi_pick.c:13-29 | Inserting there keeps a duplicate-free stable descending order |
| `WifiPick.RankedUnique` | src/wifi_pick.c:13-29 | There is only one such order, so the ranking determines the output |
| `WifiPick.CycleInRange` | src/wifi_pick.c:5-41 | Every entry of a cycle is a saved profile that was not rejected |
| `WifiPick.TurnsExactly` | src/wifi_conn.c:104-109 | For every count and counter, every unseen profile of every state vector is chosen within count cycles of the 8-bit counter if and only if they do not cross its wrap or count divides 256 |
| `WifiPick.EveryoneGetsATurn` | src/wifi_pick.c:31-39 | With fixed states and a counter that does not wrap each unseen profile is chosen within count consecutive cycles |
| `WifiPick.EveryoneGetsATurnAcrossWrap` | src/wifi_conn.c:104-109 | Twice as many cycles are enough for every count and counter |
| `WifiPick.WrapSkipsATurn` | src/wifi_conn.c:104-109 | Of three unseen profiles the middle one is passed over in the three cycles from counter 254 on |
| `Profiles.RemovalKeepsActive` | src/config.c:233-247 | Removing another profile leaves active on the same one; removing it selects the first or none |
| `Profiles.FrontKeepsActive` | src/config.c:216-231 | Moving any profile to the front permutes the list and active follows its profile |
| `Profiles.AdditionKeepsActive` | src/config.c:196-214 | A full list gives up its last profile that is not active, and active keeps its profile |
| `Profiles.Config.Find` | src/config.c:187-194 | The first profile of that name or -1 |
| `Profiles.Config.Delete` | src/config.c:233-247 | The shifting loop removes exactly profile i and fixes active |
| `Profiles.Config.Touch` | src/config.c:216-231 | Moves profile i to the front in place and fixes active |
| `Profiles.Config.Add` | src/config.c:196-214 | Appends a profile without password, evicting first when full |
| `WifiConn.Drive` | src/wifi_conn.c:200-381 | In every run of ticks, applies, scan requests and list edits, whatever the radio answers: SCAN has a pass pending, TRY has a current candidate that is being tried, only the joined profile is connected, backoff stays in 8 to 60 s |
| `WifiConn.Manager.TryFrom` | src/wifi_conn.c:83-101 | Starts the first candidate the radio takes, or waits with doubled backoff when it takes none |
| `WifiConn.Manager.BuildAndTry` | src/wifi_conn.c:103-109 | Tries the cycle order of the current states and advances the rotation |
| `WifiConn.Manager.StartCycle` | src/wifi_conn.c:111-127 | With profiles: reuses a scan younger than 15 s and tries the cycle order, else scans with two passes, else, when the radio refuses, waits; idle exactly without profiles |
| `WifiConn.Manager.Joined` | src/wifi_conn.c:129-178 | A join moves the list, the states and the rejection marks by the same permutation, connects only that profile and makes it active |
| `WifiConn.Manager.SnapshotRssi` | src/wifi_conn.c:53-68 | Each profile gets the signal of the last heard network that it is the first match of |
| `WifiConn.Manager.Apply` | src/wifi_conn.c:200-224 | Forgets all statuses and pins the active profile, or starts over |
| `WifiConn.Manager.Decay` | src/wifi_conn.c:268-275 | A rejection is forgiven after ten minutes and nothing else changes |
| `WifiConn.Manager.DriveScan` | src/wifi_conn.c:285-314 | How many passes are left, when the signals and the scan time are renewed, and when a waiting cycle goes on; statuses are untouched |
| `WifiConn.Manager.LinkLost` | src/wifi_conn.c:317-340 | Rejoins the active profile while fast retries last, then starts a cycle |
| `WifiConn.Manager.AttemptFailed` | src/wifi_conn.c:342-362 | Marks only the tried profile, by cause, and goes on to the next candidate |
| `WifiConn.Manager.Tick` | src/wifi_conn.c:258-381 | A due tick with the link up ends up, one without ends not up, and it leaves no expired wait, no overdue attempt and no idling with profiles; without the link neither the list nor, short of a rejection, any rejection mark changes |
| `Telnet.FramingRoundTrip` | src/serial_bridge.c:189-240 | Escaped data with any complete negotiations, commands and subnegotiations between comes back exactly, in order |
| `Telnet.EscapeRoundTrip` | src/serial_bridge.c:277-286 | What the bridge escapes the parser reads back as the same bytes |
| `Telnet.ParseAppend` | src/serial_bridge.c:189-240 | However the stream is cut, the pieces parse to the same |
| `Telnet.AckParsesBack` | src/serial_bridge.c:81-98 | A reply parses back to its command and payload exactly when the command is not 155 |
| `Telnet.TakenExactly` | src/serial_bridge.c:89-94 | The whole payload is sent exactly when what precedes its last byte escapes to at most 16 bytes |
| `Telnet.EightFit` | src/serial_bridge.c:89-94 | Eight payload bytes always fit, and nine |
| `Telnet.ComportAck` | src/serial_bridge.c:82-98 | The reply is built inside its 24-byte buffer |
| `Telnet.Layer.Process` | src/serial_bridge.c:189-240 | One byte moves the parser, yields exactly what it completes, and is answered by the handlers of a negotiation or a subnegotiation |
| `Telnet.Layer.Feed` | src/serial_bridge.c:189-240 | A stream fed byte by byte yields its data bytes, its parse, and every answer in order |
| `Telnet.Layer.HandleVerb` | src/serial_bridge.c:100-115 | Supported options are agreed to, others refused, and the first COM-PORT negotiation announces the modem state |
| `Telnet.Layer.HandleSub` | src/serial_bridge.c:117-185 | Each COM-PORT command changes its setting only within range and is acknowledged with the value in force |
| `Telnet.BaudEchoed` | src/serial_bridge.c:125-140 | A requested rate in range is acknowledged with exactly the octets of the request |
| `Telnet.AckSilent` | src/serial_bridge.c:81-98 | A reply parses as complete messages without a data byte exactly when its command is not 155 or its payload is IACs and then one other byte |
| `Telnet.AckSpills` | src/serial_bridge.c:81-98 | Otherwise, when the payload does not start with an IAC, all of it but the first byte is read as data |
| `Telnet.RespondSilent` | src/serial_bridge.c:100-185 | An answer puts no data byte into the client's stream and leaves no message open, exactly when it is not such an acknowledgement of command 155 |
| `Telnet.ClientSeesTheLine` | src/serial_bridge.c:273-290 | However answers are interleaved with the escaped bytes of the line, the client has at every moment read exactly the bytes of the line, if and only if no answer is garbled |
| `Telnet.GarbledExample` | src/serial_bridge.c:81-98 | Command 155 with the payload 1, 2 makes the client read a data byte 2 |
| `Telnet.Layer.NextIsData` | src/serial_bridge.c:242-250 | The prediction agrees with the parser in every state |
| `Base64.DecodeEncoded` | wireguard/wireguard.c:1013-1120 | Decoding an encoding gives the octets back for every string and every sufficient buffer, in all padding cases |
| `Base64.Encode` | wireguard/wireguard.c:1086-1120 | The encoder writes the encoding of section 4 of RFC 4648 and a terminator inside its buffer, or refuses and writes nothing |
| `Base64.Decode` | wireguard/wireguard.c:1013-1084 | The decoder computes the specified verdict and octets |
| `Base64.OverrunExactly` | wireguard/wireguard.c:1064-1080 | The octets written exceed the promised capacity exactly on letters for a full buffer, one letter and three padding characters |
| `Base64.OverrunExample` | wireguard/wireguard.c:1064-1080 | One letter and three padding characters write one octet into a buffer of none |
| `Base64.WritesBound` | wireguard/wireguard.c:1064-1080 | Never by more than one octet |
| `Base64.RoundTrip` | wireguard/wireguard.c:1013-1120 | Encode then decode through real buffers returns the original |

## Left out
- lwIP, TinyUSB, the cyw43 driver, UART, GPIO, flash and watchdog: foreign code; their answers are arbitrary inputs where a state machine reads them.
- src/http_portal.c, src/config_proto.c, src/serial_console.c, src/debug_console.c, src/usb_descriptors.c, web and docs: user interface, text formatting and constant tables.
- src/wg.c, src/ap.c, src/main.c, src/dhcp_server.c, src/usb_net.c: chains of branches and short TLV or ring code that would only add easy members.
- wireguard/crypto/cortex: assembly that only the bench firmware uses.
- The group law of the curve, primality of 2^255 - 19 and cryptographic hardness: `Primitives.CurveCommutes` is the one hypothesis about the curve.
- Cookie replies, mac2 and the initiation rate limit: under load is constantly false in this firmware; the rate limit is part of whether a response is built at all.
- Napt.ReplyReachesOrigin: assumes a millisecond clock that does not wrap within the run (49.7 days), an unchanged external address and no reset.
- NaptDevice.Device.OutboundInPlace: the span handed in is the whole array, and a null packet is an empty one.
- Egress.EthCsumRestore: frames whose 16-bit length sum wraps past the guard (total length 65522 or more) are excluded, because the code then reads past the frame; chained buffers pass through unchanged and are not modelled.
- SessionSafety.RunSafe: assumes that drawn indices and derived keys are fresh; only the part about replay windows, and with it AcceptedAtMostOnce, assumes counters whose truncated distance leads to the right branch, and only of messages that reach a window. Within one step the clock is read once.
- SessionSafety.AcceptedAtMostOnce: the packet that promotes a responder session is excepted, as the code treats it differently.
- Handshake.HonestExchange: the four handshake functions are modelled on values; update in place is modelled for HMAC and the KDFs, where buffers alias, and for keypair slots.
- Handshake.Kdf2Into: the inner HMAC on the chaining key is a value; buffers alias as the callers pass them.
- X25519.Core: the five elements are separate arrays, so the swap of two adjacent pairs is two swaps of single elements.
- X25519.Multiply: casts between octet and limb buffers are explicit little-endian conversions.
- ChaCha20: HChaCha20 and XChaCha20-Poly1305, used only for cookies.
- Aead.Encrypt: lengths below 2^31, as the code's int length requires; wiping of stack copies is not modelled except for the Poly1305 state.
- WifiScan.RunFaithful: its hypothesis is exact by RecognisableExactly, and RunFaithfulExactly has none; a start that the driver refuses still clears the table and is a start here.
- Profiles.Config.Add: names and passwords are the text before their terminator; storage beyond it, loading and saving are not modelled.
- WifiConn.Manager.Joined: saving credentials to flash and console output are not modelled.
- Telnet.Layer.Process: a reply that the TCP stack has no room for is dropped whole, which the model does not show; it only removes an answer.
- Base64.Decode: a null string, which is refused at once, is not modelled.
- Pcap.Ring.Capture: the timestamp is an input, and the constant 24-octet file header is left out.
